/** Properties of the auth flows that relate several calls: what one flow
    leaves behind decides what the next one accepts. */
module AuthProperties {
  import opened Common
  import opened Table
  import opened Tokens
  import opened Credentials
  import opened Users
  import opened Auth

  /** With unique login names, `validateUser` accepts exactly the password
      stored for that name, and yields that credential's user. */
  lemma {:induction false} ValidateUserExact(users: seq<User>, creds: seq<Credential>, j: nat, password: string)
    requires Linked(users, creds) && UniqueKeys(creds, CredName)
    requires j < |creds|
    ensures ValidateUserStep(users, creds, creds[j].nameUser, password)
            == if Matches(password, creds[j].passwordHash) then Some(OwnerPrincipal(users, creds[j])) else None
  {
    IndexOfUnique(creds, CredName, j);
  }

  /** Rewriting a credential's secrets keeps its owner, so the lookups by
      owner and by login name still find the same row, and the store stays linked. */
  lemma SecretsUpdateKeepsLookups(users: seq<User>, creds: seq<Credential>, i: nat, x: Credential, userId: string, name: string)
    requires Linked(users, creds)
    requires i < |creds| && SameAccount(creds[i], x)
    ensures IndexOf(creds[i := x], CredOwner, userId) == IndexOf(creds, CredOwner, userId)
    ensures IndexOf(creds[i := x], CredName, name) == IndexOf(creds, CredName, name)
    ensures Linked(users, creds[i := x])
  {
    IndexOfAfterUpdate(creds, CredOwner, i, x, userId);
    IndexOfAfterUpdate(creds, CredName, i, x, name);
    var s := creds[i := x];
    forall j | 0 <= j < |s| ensures IndexOf(users, UserKey, s[j].userId).Some? {
      assert s[j].userId == creds[j].userId;
    }
  }

  /** Registration then login: the new login name validates with the
      registered password, as the new non-admin user. */
  lemma RegisterThenValidate(users: seq<User>, creds: seq<Credential>, dto: RegisterDto,
                             newUserId: string, newCredId: CredId)
    requires Consistent(users, creds)
    requires IndexOf(users, UserKey, newUserId).None?
    requires IndexOf(creds, CredKey, newCredId).None?
    requires RegisterStep(users, creds, dto, newUserId, newCredId).result.Ok?
    ensures var r := RegisterStep(users, creds, dto, newUserId, newCredId);
            Linked(r.users, r.creds)
            && ValidateUserStep(r.users, r.creds, dto.username, dto.password) == Some(Principal(newUserId, dto.email, false))
  {
    var r := RegisterStep(users, creds, dto, newUserId, newCredId);
    RegisterKeepsConsistent(users, creds, dto, newUserId, newCredId);
    var j := |creds|;
    ValidateUserExact(r.users, r.creds, j, dto.password);
    var u := r.result.value.user;
    assert r.users == users + [u];
    IndexOfUnique(r.users, UserKey, |users|);
  }

  /** After a successful change, the login name validates with the new
      password, and with the old one exactly when bcrypt cannot tell the two
      apart (their first 72 bytes agree); two different passwords of at most
      72 bytes are always told apart. */
  lemma ChangePasswordThenValidate(users: seq<User>, creds: seq<Credential>, userId: string, current: string, next: string)
    requires Consistent(users, creds)
    requires ChangePasswordStep(creds, userId, current, next).result.Ok?
    ensures var after := ChangePasswordStep(creds, userId, current, next).creds;
            var name := creds[IndexOf(creds, CredOwner, userId).value].nameUser;
            Linked(users, after)
            && ValidateUserStep(users, after, name, next).Some?
            && (ValidateUserStep(users, after, name, current).Some? <==> BcryptInput(current) == BcryptInput(next))
            && (current != next && |Utf8(current)| <= BcryptInputBytes && |Utf8(next)| <= BcryptInputBytes ==>
                  ValidateUserStep(users, after, name, current).None?)
  {
    var i := IndexOf(creds, CredOwner, userId).value;
    var after := ChangePasswordStep(creds, userId, current, next).creds;
    assert after == creds[i := after[i]];
    SecretsUpdateKeepsLookups(users, creds, i, after[i], userId, creds[i].nameUser);
    ChangePasswordKeepsConsistent(users, creds, userId, current, next);
    ValidateUserExact(users, after, i, next);
    ValidateUserExact(users, after, i, current);
    if |Utf8(current)| <= BcryptInputBytes && |Utf8(next)| <= BcryptInputBytes {
      MatchesOnlyOwnSecret(current, next);
    }
  }

  /** With the reset cleared as intended, a reset token is single-use: once
      the optimized reset succeeds, every later optimized reset for that user
      fails, whatever token it presents. */
  lemma ResetTokenSingleUse(creds: seq<Credential>, userId: string, token: string, newPassword: string, nowMs: int,
                            token2: string, newPassword2: string, laterMs: int)
    requires ResetOptimizedStep(creds, userId, token, newPassword, newPassword, nowMs).result.Ok?
    ensures var after := ResetOptimizedStep(creds, userId, token, newPassword, newPassword, nowMs).creds;
            ResetOptimizedStep(after, userId, token2, newPassword2, newPassword2, laterMs).result
            == Err(Unauthorized(ResetInvalidOrExpired))
  {
    var i := IndexOf(creds, CredOwner, userId).value;
    var after := ResetOptimizedStep(creds, userId, token, newPassword, newPassword, nowMs).creds;
    assert after == creds[i := after[i]];
    IndexOfAfterUpdate(creds, CredOwner, i, after[i], userId);
  }

  /** With the reset cleared as intended, the iterative reset clears the
      credential it redeems, so presenting the same token again succeeds only
      through some other credential. */
  lemma IterativeResetSingleUse(creds: seq<Credential>, token: string, newPassword: string, nowMs: int,
                                newPassword2: string, laterMs: int)
    requires ResetIterativeStep(creds, token, newPassword, newPassword, nowMs).result.Ok?
    ensures var i := FirstRedeemable(creds, token, nowMs).value;
            var after := ResetIterativeStep(creds, token, newPassword, newPassword, nowMs).creds;
            ResetIterativeStep(after, token, newPassword2, newPassword2, laterMs).result.Ok? ==>
              exists j :: 0 <= j < |creds| && j != i && Redeemable(creds[j], token, laterMs)
  {
    var i := FirstRedeemable(creds, token, nowMs).value;
    var after := ResetIterativeStep(creds, token, newPassword, newPassword, nowMs).creds;
    if ResetIterativeStep(after, token, newPassword2, newPassword2, laterMs).result.Ok? {
      var j :| 0 <= j < |after| && Redeemable(after[j], token, laterMs);
      assert j != i && after[j] == creds[j];
    }
  }

  /** As written, the optimized reset leaves the reset stored: the same token
      sets yet another password at any later instant up to its expiry. */
  lemma ResetTokenReusableAsWritten(creds: seq<Credential>, userId: string, token: string, newPassword: string,
                                    nowMs: int, newPassword2: string, laterMs: int)
    requires ResetOptimizedAsWritten(creds, userId, token, newPassword, newPassword, nowMs).result.Ok?
    requires laterMs <= creds[IndexOf(creds, CredOwner, userId).value].resetTokenExpires.value
    ensures var after := ResetOptimizedAsWritten(creds, userId, token, newPassword, newPassword, nowMs).creds;
            ResetOptimizedAsWritten(after, userId, token, newPassword2, newPassword2, laterMs).result.Ok?
  {
    var i := IndexOf(creds, CredOwner, userId).value;
    var after := ResetOptimizedAsWritten(creds, userId, token, newPassword, newPassword, nowMs).creds;
    assert after == creds[i := after[i]];
    IndexOfAfterUpdate(creds, CredOwner, i, after[i], userId);
  }

  /** As written, the iterative reset leaves the reset stored: the same token
      succeeds again at any later instant before its expiry. */
  lemma IterativeResetReusableAsWritten(creds: seq<Credential>, token: string, newPassword: string, nowMs: int,
                                        newPassword2: string, laterMs: int)
    requires ResetIterativeAsWritten(creds, token, newPassword, newPassword, nowMs).result.Ok?
    requires laterMs < creds[FirstRedeemable(creds, token, nowMs).value].resetTokenExpires.value
    ensures var after := ResetIterativeAsWritten(creds, token, newPassword, newPassword, nowMs).creds;
            ResetIterativeAsWritten(after, token, newPassword2, newPassword2, laterMs).result.Ok?
  {
    var i := FirstRedeemable(creds, token, nowMs).value;
    var after := ResetIterativeAsWritten(creds, token, newPassword, newPassword, nowMs).creds;
    assert Redeemable(after[i], token, laterMs);
  }

  /** Issuing a reset token and presenting it to the optimized reset no later
      than its expiry sets the new password; presenting it after the expiry fails. */
  lemma IssuedTokenResetsPassword(users: seq<User>, creds: seq<Credential>, userId: string, raw: string,
                                  issuedMs: int, nowMs: int, newPassword: string)
    requires Linked(users, creds) && UniqueKeys(creds, CredName)
    requires IndexOf(creds, CredOwner, userId).Some?
    ensures var issued := GenerateResetTokenStep(creds, userId, raw, issuedMs).creds;
            var reset := ResetOptimizedStep(issued, userId, raw, newPassword, newPassword, nowMs);
            var name := creds[IndexOf(creds, CredOwner, userId).value].nameUser;
            (nowMs <= issuedMs + ResetWindowMs ==>
               reset.result.Ok? && Linked(users, reset.creds)
               && ValidateUserStep(users, reset.creds, name, newPassword).Some?)
            && (nowMs > issuedMs + ResetWindowMs ==> reset.result == Err(Unauthorized(ResetInvalidOrExpired)))
  {
    var i := IndexOf(creds, CredOwner, userId).value;
    var issued := GenerateResetTokenStep(creds, userId, raw, issuedMs).creds;
    assert issued == creds[i := issued[i]];
    SecretsUpdateKeepsLookups(users, creds, i, issued[i], userId, creds[i].nameUser);
    var reset := ResetOptimizedStep(issued, userId, raw, newPassword, newPassword, nowMs);
    if nowMs <= issuedMs + ResetWindowMs {
      assert reset.creds == issued[i := reset.creds[i]];
      SecretsUpdateKeepsLookups(users, issued, i, reset.creds[i], userId, creds[i].nameUser);
      UpdateKeepsUnique(creds, CredName, i, issued[i]);
      UpdateKeepsUnique(issued, CredName, i, reset.creds[i]);
      ValidateUserExact(users, reset.creds, i, newPassword);
    }
  }

  /** The two reset flows disagree at the instant of expiry. For a freshly
      issued token (no other credential holds its hash) presented exactly at
      `issued + 30 min`, the optimized reset, which rejects only an expiry
      before now, accepts it, while the iterative reset, which demands an
      expiry after now, rejects it; one millisecond earlier both accept. */
  lemma ExpiryBoundary(creds: seq<Credential>, userId: string, raw: string, issuedMs: int, newPassword: string)
    requires IndexOf(creds, CredOwner, userId).Some?
    requires forall j :: 0 <= j < |creds| ==> creds[j].resetTokenHash != Some(Hash(raw))
    ensures var issued := GenerateResetTokenStep(creds, userId, raw, issuedMs).creds;
            var expiry := issuedMs + ResetWindowMs;
            ResetOptimizedStep(issued, userId, raw, newPassword, newPassword, expiry).result.Ok?
            && ResetIterativeStep(issued, raw, newPassword, newPassword, expiry).result
               == Err(Unauthorized(ResetInvalidOrExpired))
            && ResetIterativeStep(issued, raw, newPassword, newPassword, expiry - 1).result.Ok?
            && ResetOptimizedStep(issued, userId, raw, newPassword, newPassword, expiry - 1).result.Ok?
  {
    var i := IndexOf(creds, CredOwner, userId).value;
    var issued := GenerateResetTokenStep(creds, userId, raw, issuedMs).creds;
    var expiry := issuedMs + ResetWindowMs;
    assert issued == creds[i := issued[i]];
    IndexOfAfterUpdate(creds, CredOwner, i, issued[i], userId);
    forall j | 0 <= j < |issued| ensures !Redeemable(issued[j], raw, expiry) {
      if j != i {
        assert issued[j] == creds[j];
      }
    }
    assert Redeemable(issued[i], raw, expiry - 1);
  }

  /** Logging in with a validated user and then refreshing with the refresh
      token just issued succeeds. */
  lemma LoginThenRefresh(users: seq<User>, creds: seq<Credential>, username: string, password: string,
                         iat: int, laterIat: int, mac: string -> string)
    requires Linked(users, creds)
    requires ValidateUserStep(users, creds, username, password).Some?
    ensures var p := ValidateUserStep(users, creds, username, password).value;
            var s := LoginStep(creds, Some(p), iat, mac);
            Linked(users, s.creds)
            && RefreshStep(users, s.creds, p.id, Compact(s.result.value.refreshToken), laterIat, mac).result.Ok?
  {
    var p := ValidateUserStep(users, creds, username, password).value;
    var j :| 0 <= j < |creds| && creds[j].nameUser == username && Matches(password, creds[j].passwordHash)
             && p == OwnerPrincipal(users, creds[j]);
    var s := LoginStep(creds, Some(p), iat, mac);
    LoginKeepsLinked(users, creds, p, iat, mac);
    RefreshOkIffHolds(users, s.creds, p.id, Compact(s.result.value.refreshToken), laterIat, mac);
  }

  /** Refresh replaces the stored hash: the token it issues is accepted next
      time, and any other text exactly when it agrees with that token on
      bcrypt's first 72 bytes. */
  lemma RefreshRotates(users: seq<User>, creds: seq<Credential>, userId: string, presented: string, iat: int,
                       laterIat: int, mac: string -> string, other: string)
    requires Linked(users, creds)
    requires RefreshStep(users, creds, userId, presented, iat, mac).result.Ok?
    ensures var s := RefreshStep(users, creds, userId, presented, iat, mac);
            var rotated := Compact(s.result.value.refreshToken);
            Linked(users, s.creds)
            && RefreshStep(users, s.creds, userId, rotated, laterIat, mac).result.Ok?
            && (RefreshStep(users, s.creds, userId, other, laterIat, mac).result.Ok? <==>
                BcryptInput(other) == BcryptInput(rotated))
  {
    var i := IndexOf(creds, CredOwner, userId).value;
    var p := OwnerPrincipal(users, creds[i]);
    var s := RefreshStep(users, creds, userId, presented, iat, mac);
    assert s == LoginStep(creds, Some(p), iat, mac);
    LoginKeepsLinked(users, creds, p, iat, mac);
    var rotated := Compact(s.result.value.refreshToken);
    RefreshOkIffHolds(users, s.creds, userId, rotated, laterIat, mac);
    RefreshOkIffHolds(users, s.creds, userId, other, laterIat, mac);
  }

  /** Refresh succeeds exactly when the stored hash accepts the presented text. */
  lemma RefreshOkIffHolds(users: seq<User>, creds: seq<Credential>, userId: string, presented: string,
                          iat: int, mac: string -> string)
    requires Linked(users, creds)
    ensures RefreshStep(users, creds, userId, presented, iat, mac).result.Ok? <==> HoldsRefresh(creds, userId, presented)
  {
  }

  /** Login changes only a credential's refresh hash, so every credential stays linked. */
  lemma LoginKeepsLinked(users: seq<User>, creds: seq<Credential>, p: Principal, iat: int, mac: string -> string)
    requires Linked(users, creds)
    ensures Linked(users, LoginStep(creds, Some(p), iat, mac).creds)
  {
    var s := LoginStep(creds, Some(p), iat, mac);
    if IndexOf(creds, CredOwner, p.id).Some? {
      var i := IndexOf(creds, CredOwner, p.id).value;
      assert s.creds == creds[i := s.creds[i]];
      SecretsUpdateKeepsLookups(users, creds, i, s.creds[i], p.id, "");
    }
  }

  /** bcrypt reads only the first 72 bytes of a token, and those hold the
      header and the claims up to the 19th character of the subject. So after
      a login, a refresh accepts every token ever signed for that user id: an
      older refresh token, and the access token just issued with it. */
  lemma RefreshAcceptsAnyTokenOfTheUser(users: seq<User>, creds: seq<Credential>, p: Principal, iat: int,
                                        mac: string -> string, t: Jwt, laterIat: int)
    requires Linked(users, creds)
    requires IndexOf(creds, CredOwner, p.id).Some?
    requires t.payload.sub == p.id && |p.id| >= 19
    ensures var s := LoginStep(creds, Some(p), iat, mac);
            Linked(users, s.creds)
            && RefreshStep(users, s.creds, p.id, Compact(t), laterIat, mac).result.Ok?
            && RefreshStep(users, s.creds, p.id, Compact(s.result.value.accessToken), laterIat, mac).result.Ok?
  {
    var s := LoginStep(creds, Some(p), iat, mac);
    LoginKeepsLinked(users, creds, p, iat, mac);
    SameSubjectSameBcryptInput(t, s.result.value.refreshToken);
    SameSubjectSameBcryptInput(s.result.value.accessToken, s.result.value.refreshToken);
    RefreshOkIffHolds(users, s.creds, p.id, Compact(t), laterIat, mac);
    RefreshOkIffHolds(users, s.creds, p.id, Compact(s.result.value.accessToken), laterIat, mac);
  }
}
