/** The credential record of each account and `CredentialsRepository`, the
    store every auth flow reads and updates. A credential holds the login name,
    the bcrypt hash of the password, the admin flag, the owning user, and the
    hashes of the outstanding refresh token and password-reset token. */
module Credentials {
  import opened Common
  import opened Table

  type CredId = string
  type UserId = string

  datatype Credential = Credential(
    id: CredId,
    nameUser: string,
    passwordHash: Digest,
    isAdmin: bool,
    userId: UserId,
    refreshTokenHash: Option<Digest>,
    resetTokenHash: Option<Digest>,
    resetTokenExpires: Option<int>)  // milliseconds since the epoch

  /** Primary key, login name and owning user, as lookup keys. */
  function CredKey(c: Credential): string { c.id }
  function CredName(c: Credential): string { c.nameUser }
  function CredOwner(c: Credential): string { c.userId }

  /** The reset hash and its expiry are set together and cleared together. */
  predicate ResetPaired(c: Credential) {
    c.resetTokenHash.Some? <==> c.resetTokenExpires.Some?
  }

  /** The identity fields, which no password or token operation touches. */
  predicate SameAccount(a: Credential, b: Credential) {
    a.id == b.id && a.nameUser == b.nameUser && a.isAdmin == b.isAdmin && a.userId == b.userId
  }

  datatype CreateCredentialDto = CreateCredentialDto(
    nameUser: string, password: string, isAdmin: Option<bool>, userId: UserId)

  /** Every field optional; the owning user cannot be changed. */
  datatype UpdateCredentialDto = UpdateCredentialDto(
    nameUser: Option<string>, password: Option<string>, isAdmin: Option<bool>)

  /** The entity `createAndSave` builds: hashed password, admin only when asked for. */
  function NewCredential(id: CredId, dto: CreateCredentialDto): (c: Credential)
    ensures c.id == id && c.nameUser == dto.nameUser && c.userId == dto.userId
    ensures Matches(dto.password, c.passwordHash)
    ensures c.isAdmin <==> dto.isAdmin == Some(true)
    ensures c.refreshTokenHash.None? && c.resetTokenHash.None? && c.resetTokenExpires.None?
  {
    Credential(id, dto.nameUser, Hash(dto.password), Pick(dto.isAdmin, false), dto.userId, None, None, None)
  }

  /** `cred.password_user = await bcrypt.hash(newPassword, 10)`. */
  function WithPassword(c: Credential, password: string): (r: Credential)
    ensures SameAccount(c, r)
    ensures Matches(password, r.passwordHash)
    ensures r.refreshTokenHash == c.refreshTokenHash
    ensures r.resetTokenHash == c.resetTokenHash && r.resetTokenExpires == c.resetTokenExpires
  {
    c.(passwordHash := Hash(password))
  }

  /** `setResetToken`: hash and expiry are written together. */
  function WithResetToken(c: Credential, h: Digest, expires: int): (r: Credential)
    ensures SameAccount(c, r) && r.passwordHash == c.passwordHash
    ensures r.refreshTokenHash == c.refreshTokenHash
    ensures r.resetTokenHash == Some(h) && r.resetTokenExpires == Some(expires)
    ensures ResetPaired(r)
  {
    c.(resetTokenHash := Some(h), resetTokenExpires := Some(expires))
  }

  /** `clearResetToken` as written: both fields are set to `undefined`, which
      `save` leaves out of the UPDATE, so the stored row does not change and
      the reset token stays usable until it expires. */
  function WithoutResetTokenAsWritten(c: Credential): (r: Credential)
    ensures r == c
  {
    c.(resetTokenHash := Saved(Undefined, c.resetTokenHash),
       resetTokenExpires := Saved(Undefined, c.resetTokenExpires))
  }

  /** `clearResetToken` as intended, assigning `null`: hash and expiry are
      cleared together. */
  function WithoutResetToken(c: Credential): (r: Credential)
    ensures SameAccount(c, r) && r.passwordHash == c.passwordHash
    ensures r.refreshTokenHash == c.refreshTokenHash
    ensures r.resetTokenHash.None? && r.resetTokenExpires.None?
    ensures ResetPaired(r)
  {
    c.(resetTokenHash := Saved(Null, c.resetTokenHash),
       resetTokenExpires := Saved(Null, c.resetTokenExpires))
  }

  /** `updateRefreshToken` as written: `refreshHash ?? undefined`, so a null
      hash is not written and the stored hash stays. */
  function WithRefreshHashAsWritten(c: Credential, h: Option<Digest>): (r: Credential)
    ensures SameAccount(c, r) && r.passwordHash == c.passwordHash
    ensures h.Some? ==> r.refreshTokenHash == h
    ensures h.None? ==> r == c
    ensures r.resetTokenHash == c.resetTokenHash && r.resetTokenExpires == c.resetTokenExpires
  {
    c.(refreshTokenHash := Saved(if h.Some? then Value(h.value) else Undefined, c.refreshTokenHash))
  }

  /** `updateRefreshToken` as intended, assigning `null` for a null hash: the
      stored hash becomes exactly the given one, so None revokes it. */
  function WithRefreshHash(c: Credential, h: Option<Digest>): (r: Credential)
    ensures SameAccount(c, r) && r.passwordHash == c.passwordHash
    ensures r.refreshTokenHash == h
    ensures r.resetTokenHash == c.resetTokenHash && r.resetTokenExpires == c.resetTokenExpires
  {
    c.(refreshTokenHash := Saved(if h.Some? then Value(h.value) else Null, c.refreshTokenHash))
  }

  /** The two differ only on a null hash, which only the intended one writes. */
  lemma RefreshHashAsWrittenIgnoresNull(c: Credential, h: Option<Digest>)
    ensures WithRefreshHashAsWritten(c, h) == WithRefreshHash(c, h) <==> h.Some? || c.refreshTokenHash.None?
  {
  }

  /** The field assignments of `updatePartial`: a truthy password is rehashed,
      a defined name or admin flag is copied, and the token fields stay. */
  function ApplyUpdate(c: Credential, dto: UpdateCredentialDto): (r: Credential)
    ensures r.id == c.id && r.userId == c.userId
    ensures dto.nameUser.Some? ==> r.nameUser == dto.nameUser.value
    ensures dto.nameUser.None? ==> r.nameUser == c.nameUser
    ensures dto.isAdmin.Some? ==> r.isAdmin == dto.isAdmin.value
    ensures dto.isAdmin.None? ==> r.isAdmin == c.isAdmin
    ensures Present(dto.password) ==> Matches(dto.password.value, r.passwordHash)
    ensures !Present(dto.password) ==> r.passwordHash == c.passwordHash
    ensures r.refreshTokenHash == c.refreshTokenHash
    ensures r.resetTokenHash == c.resetTokenHash && r.resetTokenExpires == c.resetTokenExpires
  {
    var hashed := if Present(dto.password) then Hash(dto.password.value) else c.passwordHash;
    c.(passwordHash := hashed, nameUser := Pick(dto.nameUser, c.nameUser), isAdmin := Pick(dto.isAdmin, c.isAdmin))
  }

  /** `updatePartial` looks for a duplicate only for a truthy name that differs from the current one. */
  predicate RenameClashes(rows: seq<Credential>, c: Credential, dto: UpdateCredentialDto) {
    Present(dto.nameUser) && dto.nameUser.value != c.nameUser
    && IndexOf(rows, CredName, dto.nameUser.value).Some?
  }

  /** `findByUsername`: the first credential with that login name, or null. */
  function FindByUsername(rows: seq<Credential>, name: string): (r: Option<Credential>)
    ensures r.Some? ==> r.value in rows && r.value.nameUser == name
    ensures r.None? <==> forall c :: c in rows ==> c.nameUser != name
  {
    match IndexOf(rows, CredName, name)
    case None => None
    case Some(i) => Some(rows[i])
  }

  /** `findByUserId`: the first credential owned by that user, or null. */
  function FindByUserId(rows: seq<Credential>, userId: UserId): (r: Option<Credential>)
    ensures r.Some? ==> r.value in rows && r.value.userId == userId
    ensures r.None? <==> forall c :: c in rows ==> c.userId != userId
  {
    match IndexOf(rows, CredOwner, userId)
    case None => None
    case Some(i) => Some(rows[i])
  }

  /** A rename that `updatePartial` lets through keeps login names unique,
      for every name the DTO validation admits (it rejects the empty name). */
  lemma UpdateKeepsNamesUnique(rows: seq<Credential>, i: nat, dto: UpdateCredentialDto)
    requires UniqueKeys(rows, CredName)
    requires i < |rows|
    requires dto.nameUser != Some("")
    requires !RenameClashes(rows, rows[i], dto)
    ensures UniqueKeys(rows[i := ApplyUpdate(rows[i], dto)], CredName)
  {
    var x := ApplyUpdate(rows[i], dto);
    if x.nameUser != rows[i].nameUser {
      assert IndexOf(rows, CredName, x.nameUser).None?;
    }
    UpdateKeepsUnique(rows, CredName, i, x);
  }

  /** The credentials table. Every mutator loads the row by primary key
      (NotFound when absent), assigns fields in place and saves it. The
      one-to-one join column `id_user` is UNIQUE: a user owns at most one
      credential. */
  class CredentialsRepository {
    var rows: seq<Credential>

    ghost predicate Valid()
      reads this
    {
      UniqueKeys(rows, CredKey) && UniqueKeys(rows, CredOwner)
    }

    constructor ()
      ensures Valid() && rows == []
    {
      rows := [];
    }

    /** Rejects a taken login name before saving anything; the INSERT of a
        second credential for the same user violates the UNIQUE owner column
        and fails with a database error, saving nothing. */
    method CreateAndSave(dto: CreateCredentialDto, freshId: CredId) returns (r: Result<Credential>)
      requires Valid()
      requires IndexOf(rows, CredKey, freshId).None?
      modifies this
      ensures Valid()
      ensures FindByUsername(old(rows), dto.nameUser).Some? ==>
                r == Err(Conflict(UsernameTaken)) && rows == old(rows)
      ensures FindByUsername(old(rows), dto.nameUser).None? && FindByUserId(old(rows), dto.userId).Some? ==>
                r == Err(QueryFailed) && rows == old(rows)
      ensures FindByUsername(old(rows), dto.nameUser).None? && FindByUserId(old(rows), dto.userId).None? ==>
                r == Ok(NewCredential(freshId, dto)) && rows == old(rows) + [r.value]
      ensures UniqueKeys(old(rows), CredName) ==> UniqueKeys(rows, CredName)
    {
      if FindByUsername(rows, dto.nameUser).Some? {
        return Err(Conflict(UsernameTaken));
      }
      if FindByUserId(rows, dto.userId).Some? {
        return Err(QueryFailed);
      }
      var entity := NewCredential(freshId, dto);
      AppendKeepsUnique(rows, CredKey, entity);
      AppendKeepsUnique(rows, CredOwner, entity);
      if UniqueKeys(rows, CredName) {
        AppendKeepsUnique(rows, CredName, entity);
      }
      rows := rows + [entity];
      r := Ok(entity);
    }

    /** A plain `save` of a new row, as the registration transaction does it. */
    method Insert(c: Credential)
      requires Valid()
      requires IndexOf(rows, CredKey, c.id).None? && IndexOf(rows, CredOwner, c.userId).None?
      modifies this
      ensures Valid()
      ensures rows == old(rows) + [c]
    {
      AppendKeepsUnique(rows, CredKey, c);
      AppendKeepsUnique(rows, CredOwner, c);
      rows := rows + [c];
    }

    method FindAll() returns (all: seq<Credential>)
      ensures all == rows
    {
      all := rows;
    }

    /** NotFound exactly when no credential has that primary key. */
    method FindByIdOrThrow(id: CredId) returns (r: Result<Credential>)
      ensures r.Err? <==> forall c :: c in rows ==> c.id != id
      ensures r.Err? ==> r.error == NotFound
      ensures r.Ok? ==> r.value in rows && r.value.id == id
    {
      var i := IndexOf(rows, CredKey, id);
      if i.None? {
        return Err(NotFound);
      }
      r := Ok(rows[i.value]);
    }

    /** NotFound exactly when `findByUserId` yields null. */
    method FindByUserIdOrThrow(userId: UserId) returns (r: Result<Credential>)
      ensures FindByUserId(rows, userId).None? ==> r == Err(NotFound)
      ensures FindByUserId(rows, userId).Some? ==> r == Ok(FindByUserId(rows, userId).value)
    {
      var cred := FindByUserId(rows, userId);
      if cred.None? {
        return Err(NotFound);
      }
      r := Ok(cred.value);
    }

    method UpdatePartial(id: CredId, dto: UpdateCredentialDto) returns (r: Result<Credential>)
      requires Valid()
      modifies this
      ensures Valid()
      ensures IndexOf(old(rows), CredKey, id).None? ==> r == Err(NotFound) && rows == old(rows)
      ensures IndexOf(old(rows), CredKey, id).Some? ==>
                var i := IndexOf(old(rows), CredKey, id).value;
                if RenameClashes(old(rows), old(rows)[i], dto) then
                  r == Err(Conflict(UsernameTaken)) && rows == old(rows)
                else
                  r == Ok(ApplyUpdate(old(rows)[i], dto)) && rows == old(rows)[i := r.value]
      ensures UniqueKeys(old(rows), CredName) && dto.nameUser != Some("") ==> UniqueKeys(rows, CredName)
    {
      var i := IndexOf(rows, CredKey, id);
      if i.None? {
        return Err(NotFound);
      }
      var cred := rows[i.value];
      if Present(dto.nameUser) && dto.nameUser.value != cred.nameUser {
        var duplicate := FindByUsername(rows, dto.nameUser.value);
        if duplicate.Some? {
          return Err(Conflict(UsernameTaken));
        }
      }
      if UniqueKeys(rows, CredName) && dto.nameUser != Some("") {
        UpdateKeepsNamesUnique(rows, i.value, dto);
      }
      cred := ApplyUpdate(cred, dto);
      UpdateKeepsUnique(rows, CredKey, i.value, cred);
      UpdateKeepsUnique(rows, CredOwner, i.value, cred);
      rows := rows[i.value := cred];
      r := Ok(cred);
    }

    method RemoveById(id: CredId) returns (r: Result<()>)
      requires Valid()
      modifies this
      ensures Valid()
      ensures IndexOf(old(rows), CredKey, id).None? ==> r == Err(NotFound) && rows == old(rows)
      ensures IndexOf(old(rows), CredKey, id).Some? ==>
                r == Ok(()) && rows == Without(old(rows), IndexOf(old(rows), CredKey, id).value)
      ensures forall c :: c in rows ==> c.id != id
    {
      var i := IndexOf(rows, CredKey, id);
      if i.None? {
        return Err(NotFound);
      }
      WithoutKeepsUnique(rows, CredKey, i.value);
      WithoutKeepsUnique(rows, CredOwner, i.value);
      rows := Without(rows, i.value);
      r := Ok(());
    }

    /** Only the password hash changes, to the hash of the new password. */
    method ChangePassword(id: CredId, newPassword: string) returns (r: Result<()>)
      requires Valid()
      modifies this
      ensures Valid()
      ensures IndexOf(old(rows), CredKey, id).None? ==> r == Err(NotFound) && rows == old(rows)
      ensures IndexOf(old(rows), CredKey, id).Some? ==>
                var i := IndexOf(old(rows), CredKey, id).value;
                r == Ok(()) && rows == old(rows)[i := WithPassword(old(rows)[i], newPassword)]
    {
      var i := IndexOf(rows, CredKey, id);
      if i.None? {
        return Err(NotFound);
      }
      var cred := WithPassword(rows[i.value], newPassword);
      UpdateKeepsUnique(rows, CredKey, i.value, cred);
      UpdateKeepsUnique(rows, CredOwner, i.value, cred);
      rows := rows[i.value := cred];
      r := Ok(());
    }

    /** Hash and expiry are written together. */
    method SetResetToken(id: CredId, resetHash: Digest, expires: int) returns (r: Result<()>)
      requires Valid()
      modifies this
      ensures Valid()
      ensures IndexOf(old(rows), CredKey, id).None? ==> r == Err(NotFound) && rows == old(rows)
      ensures IndexOf(old(rows), CredKey, id).Some? ==>
                var i := IndexOf(old(rows), CredKey, id).value;
                r == Ok(()) && rows == old(rows)[i := WithResetToken(old(rows)[i], resetHash, expires)]
    {
      var i := IndexOf(rows, CredKey, id);
      if i.None? {
        return Err(NotFound);
      }
      var cred := WithResetToken(rows[i.value], resetHash, expires);
      UpdateKeepsUnique(rows, CredKey, i.value, cred);
      UpdateKeepsUnique(rows, CredOwner, i.value, cred);
      rows := rows[i.value := cred];
      r := Ok(());
    }

    /** Hash and expiry are cleared together (assigning `null`, as intended). */
    method ClearResetToken(id: CredId) returns (r: Result<()>)
      requires Valid()
      modifies this
      ensures Valid()
      ensures IndexOf(old(rows), CredKey, id).None? ==> r == Err(NotFound) && rows == old(rows)
      ensures IndexOf(old(rows), CredKey, id).Some? ==>
                var i := IndexOf(old(rows), CredKey, id).value;
                r == Ok(()) && rows == old(rows)[i := WithoutResetToken(old(rows)[i])]
    {
      var i := IndexOf(rows, CredKey, id);
      if i.None? {
        return Err(NotFound);
      }
      var cred := WithoutResetToken(rows[i.value]);
      UpdateKeepsUnique(rows, CredKey, i.value, cred);
      UpdateKeepsUnique(rows, CredOwner, i.value, cred);
      rows := rows[i.value := cred];
      r := Ok(());
    }

    /** Stores the given hash; None clears it (assigning `null`, as intended). */
    method UpdateRefreshToken(id: CredId, refreshHash: Option<Digest>) returns (r: Result<()>)
      requires Valid()
      modifies this
      ensures Valid()
      ensures IndexOf(old(rows), CredKey, id).None? ==> r == Err(NotFound) && rows == old(rows)
      ensures IndexOf(old(rows), CredKey, id).Some? ==>
                var i := IndexOf(old(rows), CredKey, id).value;
                r == Ok(()) && rows == old(rows)[i := WithRefreshHash(old(rows)[i], refreshHash)]
    {
      var i := IndexOf(rows, CredKey, id);
      if i.None? {
        return Err(NotFound);
      }
      var cred := WithRefreshHash(rows[i.value], refreshHash);
      UpdateKeepsUnique(rows, CredKey, i.value, cred);
      UpdateKeepsUnique(rows, CredOwner, i.value, cred);
      rows := rows[i.value := cred];
      r := Ok(());
    }
  }
}
