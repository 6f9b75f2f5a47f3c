/** The command handlers: create (both iterations), update, deactivate and hard delete.
    Each takes the messages its injected validator produced (empty when the request is
    valid), the repository, and the injected services as function parameters: the
    password hasher `hash`, the AutoMapper maps `toUser` and `toDto`, a fresh id and the
    clock readings. */
module Commands {
  import opened Wrappers
  import opened Domain
  import opened Results
  import opened Dtos
  import opened Repository
  import opened Messages
  import Validators

  const SystemUser := "system"

  /** The record the audited create handler inserts: the mapped request with a new id,
      the hashed password, the active flag and both audit stamps set. */
  function Audited(mapped: User, dto: CreateUserDto, hash: string -> string, id: Guid,
                   createdAt: DateTime, modifiedAt: DateTime): (u: User)
    ensures u.Id == id && u.PasswordHash == Some(hash(dto.Password)) && u.IsActive
    ensures u.CreatedBy == Some(SystemUser) && u.LastModifiedBy == Some(SystemUser)
    ensures u.CreatedDate == createdAt && u.LastModifiedDate == Some(modifiedAt)
    ensures u.FirstName == mapped.FirstName && u.LastName == mapped.LastName && u.Email == mapped.Email
  {
    mapped.(Id := id, PasswordHash := Some(hash(dto.Password)), IsActive := true,
            CreatedBy := Some(SystemUser), CreatedDate := createdAt,
            LastModifiedBy := Some(SystemUser), LastModifiedDate := Some(modifiedAt))
  }

  /** `CreateUserCommandHandler.Handle`, audited iteration. The request is mapped to a
      `User` by a map this model cannot see, so the inserted email is whatever `toUser`
      yields; the duplicate check looks at the requested email. */
  method CreateUserAudited(repo: UserRepository, dto: CreateUserDto, validation: seq<string>,
                           toUser: CreateUserDto -> User, hash: string -> string,
                           toDto: User -> GetUserDto, newId: Guid,
                           createdAt: DateTime, modifiedAt: DateTime)
    returns (outcome: Outcome<GetUserDto>)
    requires repo.Valid() && newId !in repo.users
    modifies repo
    ensures repo.Valid()
    ensures validation != [] ==>
              outcome == Returned(Fail(PlainErrors(validation))) && repo.users == old(repo.users)
    ensures validation == [] && old(repo.ExistsByEmail(dto.Email)) ==>
              outcome == Returned(Fail([Plain(AlreadyExists(dto.Email))])) && repo.users == old(repo.users)
    ensures validation == [] && !old(repo.ExistsByEmail(dto.Email)) ==>
              var u := Audited(toUser(dto), dto, hash, newId, createdAt, modifiedAt);
              && (EmailClash(old(repo.users), u) ==> outcome == Raised(DuplicateEmail) && repo.users == old(repo.users))
              && (!EmailClash(old(repo.users), u) ==> outcome == Returned(Ok(toDto(u))) && repo.users == old(repo.users)[newId := u])
    ensures toUser(dto).Email == Some(dto.Email) ==> outcome.Returned?
  {
    if validation != [] {
      return Returned(Fail(PlainErrors(validation)));
    }
    var userExists := repo.ExistsByEmail(dto.Email);
    if userExists {
      return Returned(Fail([Plain(AlreadyExists(dto.Email))]));
    }
    var user := Audited(toUser(dto), dto, hash, newId, createdAt, modifiedAt);
    var saved := repo.Add(user);
    if saved.Threw? {
      return Raised(saved.error);
    }
    return Returned(Ok(toDto(user)));
  }

  /** The record the explicit create handler inserts. */
  function Created(dto: CreateUserDto, hash: string -> string, id: Guid, now: DateTime): (u: User)
    ensures u.Id == id && u.IsActive && u.CreatedDate == now
    ensures u.FirstName == Some(dto.FirstName) && u.LastName == Some(dto.LastName) && u.Email == Some(dto.Email)
    ensures u.PasswordHash == Some(hash(dto.Password))
    ensures u.CreatedBy.None? && u.LastModifiedBy.None? && u.LastModifiedDate.None?
  {
    NewUser().(Id := id, FirstName := Some(dto.FirstName), LastName := Some(dto.LastName),
               Email := Some(dto.Email), PasswordHash := Some(hash(dto.Password)),
               CreatedDate := now, IsActive := true)
  }

  /** `CreateUserCommandHandler.Handle`, explicit iteration: the names and the email are
      copied from the request, so the insert can never hit the unique index. */
  method CreateUser(repo: UserRepository, dto: CreateUserDto, validation: seq<string>,
                    hash: string -> string, toDto: User -> GetUserDto, newId: Guid, now: DateTime)
    returns (outcome: Outcome<GetUserDto>)
    requires repo.Valid() && newId !in repo.users
    modifies repo
    ensures repo.Valid()
    ensures validation != [] ==>
              outcome == Returned(Fail(PlainErrors(validation))) && repo.users == old(repo.users)
    ensures validation == [] && old(repo.ExistsByEmail(dto.Email)) ==>
              outcome == Returned(Fail([Plain(AlreadyExists(dto.Email))])) && repo.users == old(repo.users)
    ensures validation == [] && !old(repo.ExistsByEmail(dto.Email)) ==>
              var u := Created(dto, hash, newId, now);
              outcome == Returned(Ok(toDto(u))) && repo.users == old(repo.users)[newId := u]
  {
    if validation != [] {
      return Returned(Fail(PlainErrors(validation)));
    }
    var userExists := repo.ExistsByEmail(dto.Email);
    if userExists {
      return Returned(Fail([Plain(AlreadyExists(dto.Email))]));
    }
    var user := Created(dto, hash, newId, now);
    var saved := repo.Add(user);
    assert saved == Committed(user);
    return Returned(Ok(toDto(user)));
  }

  /** Run with the create validator of this service, which has no uniqueness rule: the
      handler reports the validator's messages, or its own duplicate-email failure exactly
      when a request that passes the rules names a stored email, or inserts. Together
      they accept exactly the requests that pass every rule and name a free email. */
  method CreateUserValidated(repo: UserRepository, dto: CreateUserDto, isEmail: string -> bool,
                             hash: string -> string, toDto: User -> GetUserDto, newId: Guid, now: DateTime)
    returns (outcome: Outcome<GetUserDto>)
    requires repo.Valid() && newId !in repo.users
    modifies repo
    ensures repo.Valid()
    ensures outcome.Returned?
    ensures var errs := Validators.CreateUserDtoShapeValidator(dto, isEmail);
      && (errs != [] ==> outcome.result == Fail(PlainErrors(errs)))
      && (errs == [] ==> (outcome.result == Fail([Plain(AlreadyExists(dto.Email))]) <==> old(repo.ExistsByEmail(dto.Email))))
    ensures outcome.result.Ok? <==> old(Validators.CreateUserDtoIsValid(dto, repo, isEmail))
    ensures outcome.result.Ok? ==>
              outcome.result.value == toDto(Created(dto, hash, newId, now))
              && repo.users == old(repo.users)[newId := Created(dto, hash, newId, now)]
    ensures outcome.result.Fail? ==> repo.users == old(repo.users)
  {
    var validation := Validators.CreateUserDtoShapeValidator(dto, isEmail);
    outcome := CreateUser(repo, dto, validation, hash, toDto, newId, now);
  }

  /** The stored record after an update: the request's names, email, active flag and
      hashed password over the existing row; its id and audit fields stay. */
  function Overwritten(existing: User, dto: UpdateUserDto, hash: string -> string): (u: User)
    ensures u.Id == existing.Id && u.CreatedDate == existing.CreatedDate && u.CreatedBy == existing.CreatedBy
    ensures u.LastModifiedDate == existing.LastModifiedDate && u.LastModifiedBy == existing.LastModifiedBy
    ensures u.FirstName == Some(dto.FirstName) && u.LastName == Some(dto.LastName) && u.Email == Some(dto.Email)
    ensures u.PasswordHash == Some(hash(dto.Password)) && u.IsActive == dto.IsActive
  {
    existing.(FirstName := Some(dto.FirstName), LastName := Some(dto.LastName), Email := Some(dto.Email),
              PasswordHash := Some(hash(dto.Password)), IsActive := dto.IsActive)
  }

  /** `UpdateUserCommandHandler.Handle`. Taking an email another user holds makes the
      save throw; otherwise exactly the target row changes. */
  method UpdateUser(repo: UserRepository, dto: UpdateUserDto, validation: seq<string>,
                    hash: string -> string, toDto: User -> GetUserDto)
    returns (outcome: Outcome<GetUserDto>)
    requires repo.Valid()
    modifies repo
    ensures repo.Valid()
    ensures validation != [] ==>
              outcome == Returned(Fail(PlainErrors(validation))) && repo.users == old(repo.users)
    ensures validation == [] && dto.Id !in old(repo.users) ==>
              outcome == Returned(Fail([NotFound(IdNotFound(dto.Id))])) && repo.users == old(repo.users)
    ensures validation == [] && dto.Id in old(repo.users) ==>
              var u := Overwritten(old(repo.users)[dto.Id], dto, hash);
              && (EmailClash(old(repo.users), u) ==> outcome == Raised(DuplicateEmail) && repo.users == old(repo.users))
              && (!EmailClash(old(repo.users), u) ==> outcome == Returned(Ok(toDto(u))) && repo.users == old(repo.users)[dto.Id := u])
  {
    if validation != [] {
      return Returned(Fail(PlainErrors(validation)));
    }
    var existingUser := repo.GetById(dto.Id);
    if existingUser.None? {
      return Returned(Fail([NotFound(IdNotFound(dto.Id))]));
    }
    var user := Overwritten(existingUser.value, dto, hash);
    var saved := repo.Update(user);
    if saved.Threw? {
      return Raised(saved.error);
    }
    return Returned(Ok(toDto(saved.value)));
  }

  /** `DeactivateUserCommandHandler.Handle` as corrected: the response maps the
      deactivated user. The store cannot refuse the write (the row is there and its
      email does not change), so the handler's `!deactivated` branch is unreachable. */
  method DeactivateUser(repo: UserRepository, command: DeactivateUserCommand, toDto: User -> GetUserDto)
    returns (outcome: Outcome<GetUserDto>)
    requires repo.Valid()
    modifies repo
    ensures repo.Valid()
    ensures command.Id !in old(repo.users) ==>
              outcome == Returned(Fail([NotFound(IdNotFound(command.Id))])) && repo.users == old(repo.users)
    ensures command.Id in old(repo.users) ==>
              var u := old(repo.users)[command.Id].(IsActive := false);
              outcome == Returned(Ok(toDto(u))) && repo.users == old(repo.users)[command.Id := u]
  {
    var user := repo.GetById(command.Id);
    if user.None? {
      return Returned(Fail([NotFound(IdNotFound(command.Id))]));
    }
    var deactivated := repo.SetUserActiveState(user.value, false);
    assert deactivated == Committed(true);
    return Returned(Ok(toDto(user.value.(IsActive := false))));
  }

  /** `DeactivateUserCommandHandler.Handle` as written: it maps the boolean the
      repository returned, through `mapFlag`, instead of the user. `mapFlag` yields
      `None` when no profile maps a boolean to `GetUserDto`, and AutoMapper throws. */
  method DeactivateUserAsWritten(repo: UserRepository, command: DeactivateUserCommand,
                                 mapFlag: bool -> Option<GetUserDto>)
    returns (outcome: Outcome<GetUserDto>)
    requires repo.Valid()
    modifies repo
    ensures repo.Valid()
    ensures command.Id !in old(repo.users) ==>
              outcome == Returned(Fail([NotFound(IdNotFound(command.Id))])) && repo.users == old(repo.users)
    ensures command.Id in old(repo.users) ==>
              && repo.users == old(repo.users)[command.Id := old(repo.users)[command.Id].(IsActive := false)]
              && outcome == FlagResponse(mapFlag)
  {
    var user := repo.GetById(command.Id);
    if user.None? {
      return Returned(Fail([NotFound(IdNotFound(command.Id))]));
    }
    var deactivated := repo.SetUserActiveState(user.value, false);
    assert deactivated == Committed(true);
    var userDto := mapFlag(deactivated.value);
    if userDto.None? {
      return Raised(MissingTypeMap);
    }
    return Returned(Ok(userDto.value));
  }

  /** What the as-written handler answers after deactivating a user: it depends on the
      mapping of `true` alone. */
  function FlagResponse(mapFlag: bool -> Option<GetUserDto>): (outcome: Outcome<GetUserDto>)
    ensures mapFlag(true).None? ==> outcome == Raised(MissingTypeMap)
    ensures mapFlag(true).Some? ==> outcome == Returned(Ok(mapFlag(true).value))
  {
    if mapFlag(true).None? then Raised(MissingTypeMap) else Returned(Ok(mapFlag(true).value))
  }

  /** Whatever `mapFlag` is, the as-written answer cannot name both of two different
      users, so it does not describe the user deactivated; with only the `User` map
      configured it is an exception although the row was written. */
  lemma FlagResponseIgnoresUser(mapFlag: bool -> Option<GetUserDto>, a: Guid, b: Guid)
    requires a != b
    ensures FlagResponse(mapFlag).Returned? ==>
              FlagResponse(mapFlag).result.value.Id != a || FlagResponse(mapFlag).result.value.Id != b
    ensures (forall flag :: mapFlag(flag).None?) ==> FlagResponse(mapFlag) == Raised(MissingTypeMap)
  {
  }

  /** A map that carries the user's id over to the response. */
  ghost predicate KeepsId(toDto: User -> GetUserDto) {
    forall u :: toDto(u).Id == u.Id
  }

  /** `DeleteUserCommandHandler.Handle`: the row goes and nothing else changes. The
      store cannot refuse the delete of a row it just returned, so the handler's
      `!deleted` branch is unreachable. */
  method DeleteUser(repo: UserRepository, command: DeleteUserCommand) returns (outcome: Outcome<()>)
    requires repo.Valid()
    modifies repo
    ensures repo.Valid()
    ensures command.Id !in old(repo.users) ==>
              outcome == Returned(Fail([NotFound(IdNotFound(command.Id))])) && repo.users == old(repo.users)
    ensures command.Id in old(repo.users) ==>
              outcome == Returned(Ok(())) && repo.users == old(repo.users) - {command.Id}
  {
    var user := repo.GetById(command.Id);
    if user.None? {
      return Returned(Fail([NotFound(IdNotFound(command.Id))]));
    }
    var deleted := repo.Delete(user.value);
    assert deleted == Committed(true);
    return Returned(Ok(()));
  }

  /** Deleting the same id twice: the second call reports the id as not found, and a
      lookup after the first finds nothing. */
  method DeleteTwice(repo: UserRepository, id: Guid) returns (first: Outcome<()>, second: Outcome<()>)
    requires repo.Valid() && id in repo.users
    modifies repo
    ensures first == Returned(Ok(()))
    ensures second == Returned(Fail([NotFound(IdNotFound(id))]))
    ensures repo.Valid() && repo.GetById(id).None?
  {
    first := DeleteUser(repo, DeleteUserCommand(id));
    second := DeleteUser(repo, DeleteUserCommand(id));
  }

  /** Deactivating twice leaves the user inactive and answers the same both times, so
      the operation is idempotent. */
  method DeactivateTwice(repo: UserRepository, id: Guid, toDto: User -> GetUserDto)
    returns (first: Outcome<GetUserDto>, second: Outcome<GetUserDto>)
    requires repo.Valid() && id in repo.users
    modifies repo
    ensures first == second && first.Returned? && first.result.Ok?
    ensures id in repo.users && !repo.users[id].IsActive
    ensures KeepsId(toDto) ==> first.result.value.Id == id
  {
    first := DeactivateUser(repo, DeactivateUserCommand(id), toDto);
    second := DeactivateUser(repo, DeactivateUserCommand(id), toDto);
  }
}
