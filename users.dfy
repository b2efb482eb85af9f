/** Users (tourists): the `users` table, its repository, and `UsersService`,
    which keeps e-mail addresses unique on create and update. */
module Users {
  import opened Common
  import opened Table

  type UserId = string

  /** Birthdate is kept as the ISO date string it arrives as. */
  datatype User = User(
    id: UserId,
    name: string,
    lastName: string,
    email: string,
    address: string,
    birthdate: string,
    cuit: Option<string>,
    phone: Option<string>)

  function UserKey(u: User): string { u.id }
  function UserEmail(u: User): string { u.email }

  datatype CreateUserDto = CreateUserDto(
    name: string, lastName: string, email: string, address: string,
    birthdate: string, cuit: Option<string>, phone: Option<string>)

  /** Every field optional; `Object.assign` copies exactly the defined ones. */
  datatype UpdateUserDto = UpdateUserDto(
    name: Option<string>, lastName: Option<string>, email: Option<string>,
    address: Option<string>, birthdate: Option<string>,
    cuit: Option<string>, phone: Option<string>)

  /** The entity `createAndSave` builds (`cuit ?? null`, `phone ?? null`). */
  function NewUser(id: UserId, dto: CreateUserDto): (u: User)
    ensures u.id == id && u.email == dto.email
    ensures u.name == dto.name && u.lastName == dto.lastName && u.address == dto.address
    ensures u.birthdate == dto.birthdate && u.cuit == dto.cuit && u.phone == dto.phone
  {
    User(id, dto.name, dto.lastName, dto.email, dto.address, dto.birthdate, dto.cuit, dto.phone)
  }

  /** `Object.assign(user, { ...dto })`: the defined fields overwrite, the rest stay. */
  function Merge(u: User, dto: UpdateUserDto): (r: User)
    ensures r.id == u.id
    ensures dto.name.Some? ==> r.name == dto.name.value
    ensures dto.name.None? ==> r.name == u.name
    ensures dto.lastName.Some? ==> r.lastName == dto.lastName.value
    ensures dto.lastName.None? ==> r.lastName == u.lastName
    ensures dto.email.Some? ==> r.email == dto.email.value
    ensures dto.email.None? ==> r.email == u.email
    ensures dto.address.Some? ==> r.address == dto.address.value
    ensures dto.address.None? ==> r.address == u.address
    ensures dto.birthdate.Some? ==> r.birthdate == dto.birthdate.value
    ensures dto.birthdate.None? ==> r.birthdate == u.birthdate
    ensures dto.cuit.Some? ==> r.cuit == dto.cuit
    ensures dto.cuit.None? ==> r.cuit == u.cuit
    ensures dto.phone.Some? ==> r.phone == dto.phone
    ensures dto.phone.None? ==> r.phone == u.phone
  {
    User(u.id, Pick(dto.name, u.name), Pick(dto.lastName, u.lastName), Pick(dto.email, u.email),
         Pick(dto.address, u.address), Pick(dto.birthdate, u.birthdate),
         if dto.cuit.Some? then dto.cuit else u.cuit,
         if dto.phone.Some? then dto.phone else u.phone)
  }

  /** `findByEmail`: the first user with that address, or null. */
  function FindByEmail(rows: seq<User>, email: string): (r: Option<User>)
    ensures r.Some? ==> r.value in rows && r.value.email == email
    ensures r.None? <==> forall u :: u in rows ==> u.email != email
  {
    match IndexOf(rows, UserEmail, email)
    case None => None
    case Some(i) => Some(rows[i])
  }

  /** `update` looks for a clash only for a truthy address that differs from
      the current one, and a clash is another user's row. */
  predicate EmailClashes(rows: seq<User>, id: UserId, current: User, dto: UpdateUserDto) {
    Present(dto.email) && dto.email.value != current.email
    && FindByEmail(rows, dto.email.value).Some? && FindByEmail(rows, dto.email.value).value.id != id
  }

  /** An update `update` lets through keeps e-mail addresses unique, for every
      address the DTO validation admits (it rejects the empty address). */
  lemma UpdateKeepsEmailsUnique(rows: seq<User>, i: nat, dto: UpdateUserDto)
    requires UniqueKeys(rows, UserKey) && UniqueKeys(rows, UserEmail)
    requires i < |rows|
    requires dto.email != Some("")
    requires !EmailClashes(rows, rows[i].id, rows[i], dto)
    ensures UniqueKeys(rows[i := Merge(rows[i], dto)], UserEmail)
  {
    var x := Merge(rows[i], dto);
    if x.email != rows[i].email {
      assert IndexOf(rows, UserEmail, x.email).None?;
    }
    UpdateKeepsUnique(rows, UserEmail, i, x);
  }

  /** The users table. */
  class UsersRepository {
    var rows: seq<User>

    ghost predicate Valid()
      reads this
    {
      UniqueKeys(rows, UserKey)
    }

    constructor ()
      ensures Valid() && rows == []
    {
      rows := [];
    }

    /** Saves a new row; the id is the one the database generates. */
    method CreateAndSave(dto: CreateUserDto, freshId: UserId) returns (u: User)
      requires Valid()
      requires IndexOf(rows, UserKey, freshId).None?
      modifies this
      ensures Valid()
      ensures u == NewUser(freshId, dto) && rows == old(rows) + [u]
    {
      u := NewUser(freshId, dto);
      AppendKeepsUnique(rows, UserKey, u);
      rows := rows + [u];
    }

    /** NotFound exactly when no user has that id. */
    method FindByIdOrThrow(id: UserId) returns (r: Result<User>)
      ensures r.Err? <==> forall u :: u in rows ==> u.id != id
      ensures r.Err? ==> r.error == NotFound
      ensures r.Ok? ==> r.value in rows && r.value.id == id
    {
      var i := IndexOf(rows, UserKey, id);
      if i.None? {
        return Err(NotFound);
      }
      r := Ok(rows[i.value]);
    }

    method UpdatePartial(id: UserId, dto: UpdateUserDto) returns (r: Result<User>)
      requires Valid()
      modifies this
      ensures Valid()
      ensures IndexOf(old(rows), UserKey, id).None? ==> r == Err(NotFound) && rows == old(rows)
      ensures IndexOf(old(rows), UserKey, id).Some? ==>
                var i := IndexOf(old(rows), UserKey, id).value;
                r == Ok(Merge(old(rows)[i], dto)) && rows == old(rows)[i := r.value]
    {
      var i := IndexOf(rows, UserKey, id);
      if i.None? {
        return Err(NotFound);
      }
      var user := Merge(rows[i.value], dto);
      UpdateKeepsUnique(rows, UserKey, i.value, user);
      rows := rows[i.value := user];
      r := Ok(user);
    }
  }

  /** The service in front of the repository: the e-mail uniqueness rules. */
  class UsersService {
    const repository: UsersRepository

    ghost predicate Valid()
      reads this, repository
    {
      repository.Valid()
    }

    constructor (repository: UsersRepository)
      requires repository.Valid()
      ensures this.repository == repository && Valid()
    {
      this.repository := repository;
    }

    /** Conflict, with nothing created, when the address is already used. */
    method Create(dto: CreateUserDto, freshId: UserId) returns (r: Result<User>)
      requires Valid()
      requires IndexOf(repository.rows, UserKey, freshId).None?
      modifies repository
      ensures Valid()
      ensures FindByEmail(old(repository.rows), dto.email).Some? ==>
                r == Err(Conflict(EmailInUse)) && repository.rows == old(repository.rows)
      ensures FindByEmail(old(repository.rows), dto.email).None? ==>
                r == Ok(NewUser(freshId, dto)) && repository.rows == old(repository.rows) + [r.value]
      ensures UniqueKeys(old(repository.rows), UserEmail) ==> UniqueKeys(repository.rows, UserEmail)
    {
      var existing := FindByEmail(repository.rows, dto.email);
      if existing.Some? {
        return Err(Conflict(EmailInUse));
      }
      if UniqueKeys(repository.rows, UserEmail) {
        AppendKeepsUnique(repository.rows, UserEmail, NewUser(freshId, dto));
      }
      var u := repository.CreateAndSave(dto, freshId);
      r := Ok(u);
    }

    /** NotFound from the repository for an unknown id. */
    method FindOne(id: UserId) returns (r: Result<User>)
      requires Valid()
      ensures r.Err? <==> forall u :: u in repository.rows ==> u.id != id
      ensures r.Err? ==> r.error == NotFound
      ensures r.Ok? ==> r.value in repository.rows && r.value.id == id
    {
      r := repository.FindByIdOrThrow(id);
    }

    /** NotFound first; then Conflict when a truthy new address belongs to
        another user; otherwise the defined fields are merged and saved. */
    method Update(id: UserId, dto: UpdateUserDto) returns (r: Result<User>)
      requires Valid()
      modifies repository
      ensures Valid()
      ensures IndexOf(old(repository.rows), UserKey, id).None? ==>
                r == Err(NotFound) && repository.rows == old(repository.rows)
      ensures IndexOf(old(repository.rows), UserKey, id).Some? ==>
                var i := IndexOf(old(repository.rows), UserKey, id).value;
                if EmailClashes(old(repository.rows), id, old(repository.rows)[i], dto) then
                  r == Err(Conflict(EmailInUse)) && repository.rows == old(repository.rows)
                else
                  r == Ok(Merge(old(repository.rows)[i], dto))
                  && repository.rows == old(repository.rows)[i := r.value]
      ensures UniqueKeys(old(repository.rows), UserEmail) && dto.email != Some("") ==>
                UniqueKeys(repository.rows, UserEmail)
    {
      var current := repository.FindByIdOrThrow(id);
      if current.Err? {
        return current;
      }
      if Present(dto.email) && dto.email.value != current.value.email {
        var emailExists := FindByEmail(repository.rows, dto.email.value);
        if emailExists.Some? && emailExists.value.id != id {
          return Err(Conflict(EmailInUse));
        }
      }
      ghost var i := IndexOf(repository.rows, UserKey, id).value;
      IndexOfUnique(repository.rows, UserKey, i);
      if UniqueKeys(repository.rows, UserEmail) && dto.email != Some("") {
        UpdateKeepsEmailsUnique(repository.rows, i, dto);
      }
      r := repository.UpdatePartial(id, dto);
    }
  }
}
