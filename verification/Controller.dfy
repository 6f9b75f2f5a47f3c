/** `UsersController`: each action sends one request down the pipeline and turns the
    handler's result into an HTTP response. An exception that escapes a handler is not
    caught anywhere, so the host answers 500. */
module Controller {
  import opened Wrappers
  import opened Domain
  import opened Results
  import opened Dtos
  import opened Repository
  import Queries
  import Commands
  import Messages

  /** What a response carries: nothing, the value, the error list, or a text. */
  datatype Body<T> = NoBody | Value(value: T) | Errors(errors: seq<Error>) | Text(text: string)

  /** The action a `201 Created` response points at. */
  datatype Route = NoRoute | GetUserByIdRoute(id: Guid)

  datatype Response<T> = Response(status: int, body: Body<T>, location: Route)

  const MismatchedId := "Mismatched user ID."

  /** The branching of the read actions: a `NotFoundError` gives an empty 404, any
      other failure 400 with the errors, success 200 with the value. */
  function ReadResponse<T>(r: Result<T>): (resp: Response<T>)
    ensures resp.status == 404 <==> r.Fail? && HasNotFound(r.errors)
    ensures resp.status == 404 ==> resp.body == NoBody
    ensures resp.status == 400 <==> r.Fail? && !HasNotFound(r.errors)
    ensures resp.status == 400 ==> resp.body == Errors(r.errors)
    ensures resp.status == 200 <==> r.Ok?
    ensures resp.status == 200 ==> resp.body == Value(r.value)
    ensures resp.location == NoRoute
  {
    if r.Fail? then
      if HasNotFound(r.errors) then Response(404, NoBody, NoRoute)
      else Response(400, Errors(r.errors), NoRoute)
    else Response(200, Value(r.value), NoRoute)
  }

  /** `GetUserById`: 404 exactly when no user has the id, otherwise 200 with its view. */
  function GetUserById(repo: UserRepository, id: Guid, toDto: User -> GetUserDto): (resp: Response<GetUserDto>)
    reads repo
    requires repo.Valid()
    ensures resp.status == 404 <==> id !in repo.users
    ensures resp.status == 200 <==> id in repo.users
    ensures id in repo.users ==> resp.body == Value(toDto(repo.users[id]))
  {
    var r := Queries.GetUserById(repo, GetUserByIdQuery(id), toDto);
    assert r.Fail? ==> r.errors[0].NotFound?;
    ReadResponse(r)
  }

  /** `GetUserByEmail` over the `NotFoundError` handler: validation failures give 400, an
      unknown email 404, a known one 200. */
  function GetUserByEmail(repo: UserRepository, dto: GetUserByEmailDto, validation: seq<string>,
                          toDto: User -> GetUserDto): (resp: Response<GetUserDto>)
    reads repo
    requires repo.Valid()
    ensures validation != [] ==> resp.status == 400 && resp.body == Errors(PlainErrors(validation))
    ensures validation == [] ==> (resp.status == 404 <==> forall id :: id in repo.users ==> repo.users[id].Email != Some(dto.Email))
    ensures validation == [] ==> (resp.status == 200 <==> exists id :: id in repo.users && repo.users[id].Email == Some(dto.Email))
    ensures validation == [] ==> forall id :: id in repo.users && repo.users[id].Email == Some(dto.Email) ==>
              resp.body == Value(toDto(repo.users[id]))
  {
    var r := Queries.GetUserByEmail(repo, dto, validation, toDto);
    PlainErrorsAreNotNotFound(validation);
    assert r.Fail? && validation == [] ==> r.errors[0].NotFound?;
    ReadResponse(r)
  }

  /** The same action over the plain-error handler never answers 404: an unknown email
      is a 400. */
  lemma PlainEmailQueryNever404(repo: UserRepository, dto: GetUserByEmailDto, validation: seq<string>, toDto: User -> GetUserDto)
    requires repo.Valid()
    ensures ReadResponse(Queries.GetUserByEmailPlain(repo, dto, validation, toDto)).status != 404
    ensures validation == [] && (forall id :: id in repo.users ==> repo.users[id].Email != Some(dto.Email)) ==>
              ReadResponse(Queries.GetUserByEmailPlain(repo, dto, validation, toDto)) ==
              Response(400, Errors([Plain(Messages.UserNotFound)]), NoRoute)
  {
    var r := Queries.GetUserByEmailPlain(repo, dto, validation, toDto);
    if validation == [] && forall id :: id in repo.users ==> repo.users[id].Email != Some(dto.Email) {
      assert repo.GetByEmail(dto.Email).None?;
    }
  }

  /** `GetAllUsers`: an empty page is a plain failure, so it answers 400, never 404. */
  function GetAllUsers(repo: UserRepository, pageNumber: Option<int>, pageSize: Option<int>,
                       toDto: User -> GetUserDto): (resp: Response<seq<GetUserDto>>)
    reads repo
    requires repo.Valid()
    ensures resp.status == 200 || resp.status == 400
    ensures var page := repo.GetAll(Queries.ZeroBasedPage(GetAllUsersQuery(pageNumber, pageSize)),
                                    Queries.PageSizeOf(GetAllUsersQuery(pageNumber, pageSize)));
      && (resp.status == 400 <==> page == [])
      && (resp.status == 400 ==> resp.body == Errors([Plain(Messages.NoUsersFound)]))
      && (resp.status == 200 ==> resp.body == Value(Queries.MapAll(page, toDto)))
  {
    var r := Queries.GetAllUsers(repo, GetAllUsersQuery(pageNumber, pageSize), toDto);
    assert r.Fail? ==> !r.errors[0].NotFound? && |r.errors| == 1;
    assert r.Ok? ==> r.value == Queries.MapAll(repo.GetAll(Queries.ZeroBasedPage(GetAllUsersQuery(pageNumber, pageSize)),
                                                           Queries.PageSizeOf(GetAllUsersQuery(pageNumber, pageSize))), toDto);
    ReadResponse(r)
  }

  /** `CreateUser`: any failure is 400, never 404; success is 201 pointing at
      `GetUserById` for the new id; an escaped exception is 500. */
  function CreateResponse(outcome: Outcome<GetUserDto>): (resp: Response<GetUserDto>)
    ensures outcome.Raised? <==> resp.status == 500
    ensures outcome.Returned? && outcome.result.Fail? <==> resp.status == 400
    ensures resp.status == 400 ==> resp.body == Errors(outcome.result.errors)
    ensures outcome.Returned? && outcome.result.Ok? <==> resp.status == 201
    ensures resp.status == 201 ==>
              resp.body == Value(outcome.result.value) && resp.location == GetUserByIdRoute(outcome.result.value.Id)
    ensures resp.status != 404
  {
    match outcome
    case Raised(_) => Response(500, NoBody, NoRoute)
    case Returned(Fail(errors)) => Response(400, Errors(errors), NoRoute)
    case Returned(Ok(created)) => Response(201, Value(created), GetUserByIdRoute(created.Id))
  }

  method CreateUser(repo: UserRepository, dto: CreateUserDto, validation: seq<string>,
                    toUser: CreateUserDto -> User, hash: string -> string, toDto: User -> GetUserDto,
                    newId: Guid, createdAt: DateTime, modifiedAt: DateTime)
    returns (resp: Response<GetUserDto>)
    requires repo.Valid() && newId !in repo.users
    modifies repo
    ensures repo.Valid()
    ensures resp.status == 201 || resp.status == 400 || resp.status == 500
    ensures validation != [] ==> resp == Response(400, Errors(PlainErrors(validation)), NoRoute)
    ensures validation == [] && old(repo.ExistsByEmail(dto.Email)) ==>
              resp == Response(400, Errors([Plain(Messages.AlreadyExists(dto.Email))]), NoRoute)
    ensures var u := Commands.Audited(toUser(dto), dto, hash, newId, createdAt, modifiedAt);
      var accepted := validation == [] && !old(repo.ExistsByEmail(dto.Email));
      && (resp.status == 201 <==> accepted && !EmailClash(old(repo.users), u))
      && (resp.status == 500 <==> accepted && EmailClash(old(repo.users), u))
      && (resp.status == 201 ==> resp.body == Value(toDto(u)) && repo.users == old(repo.users)[newId := u])
    ensures resp.status != 201 ==> repo.users == old(repo.users)
  {
    var outcome := Commands.CreateUserAudited(repo, dto, validation, toUser, hash, toDto, newId, createdAt, modifiedAt);
    resp := CreateResponse(outcome);
  }

  /** The branching of `UpdateUser` after dispatch: `NotFoundError` gives an empty 404,
      another failure 400 with the errors, success 200 with the value. */
  function UpdateResponse(outcome: Outcome<GetUserDto>): (resp: Response<GetUserDto>)
    ensures outcome.Raised? <==> resp.status == 500
    ensures outcome.Returned? ==> resp == ReadResponse(outcome.result)
  {
    match outcome
    case Raised(_) => Response(500, NoBody, NoRoute)
    case Returned(r) => ReadResponse(r)
  }

  /** `UpdateUser`: a route id that differs from the body's id is refused with 400
      before any command is sent, and the store is not touched. */
  method UpdateUser(repo: UserRepository, id: Guid, dto: UpdateUserDto, validation: seq<string>,
                    hash: string -> string, toDto: User -> GetUserDto)
    returns (resp: Response<GetUserDto>)
    requires repo.Valid()
    modifies repo
    ensures repo.Valid()
    ensures id != dto.Id ==> resp == Response(400, Text(MismatchedId), NoRoute) && repo.users == old(repo.users)
    ensures id == dto.Id && validation != [] ==>
              resp == Response(400, Errors(PlainErrors(validation)), NoRoute)
    ensures id == dto.Id && validation == [] && id !in old(repo.users) ==>
              resp == Response(404, NoBody, NoRoute)
    ensures resp.status != 200 ==> repo.users == old(repo.users)
    ensures id == dto.Id && validation == [] && id in old(repo.users) ==>
              var u := Commands.Overwritten(old(repo.users)[id], dto, hash);
              && (resp.status == 200 <==> !EmailClash(old(repo.users), u))
              && (resp.status == 500 <==> EmailClash(old(repo.users), u))
    ensures resp.status == 200 ==> id == dto.Id && validation == [] && id in old(repo.users)
    ensures resp.status == 200 ==>
              var u := Commands.Overwritten(old(repo.users)[id], dto, hash);
              resp.body == Value(toDto(u)) && repo.users == old(repo.users)[id := u]
  {
    if id != dto.Id {
      return Response(400, Text(MismatchedId), NoRoute);
    }
    var outcome := Commands.UpdateUser(repo, dto, validation, hash, toDto);
    if validation == [] && id !in old(repo.users) {
      assert outcome.result.errors[0].NotFound?;
    }
    resp := UpdateResponse(outcome);
  }

  /** The branching of `DeactivateUser` and `HardDeleteUser`: here a `NotFoundError`
      gives 404 carrying the errors; `ok` is the success body. */
  function WriteResponse<T, U>(outcome: Outcome<T>, ok: Body<U>): (resp: Response<U>)
    ensures outcome.Raised? <==> resp.status == 500
    ensures resp.status == 404 <==> outcome.Returned? && outcome.result.Fail? && HasNotFound(outcome.result.errors)
    ensures resp.status == 400 <==> outcome.Returned? && outcome.result.Fail? && !HasNotFound(outcome.result.errors)
    ensures resp.status == 404 || resp.status == 400 ==> resp.body == Errors(outcome.result.errors)
    ensures resp.status == 200 <==> outcome.Returned? && outcome.result.Ok?
    ensures resp.status == 200 ==> resp.body == ok
  {
    match outcome
    case Raised(_) => Response(500, NoBody, NoRoute)
    case Returned(Fail(errors)) =>
      if HasNotFound(errors) then Response(404, Errors(errors), NoRoute) else Response(400, Errors(errors), NoRoute)
    case Returned(Ok(_)) => Response(200, ok, NoRoute)
  }

  /** `DeactivateUser` over the corrected handler: 404 with the errors for an unknown
      id, otherwise 200 with the view of the now inactive user. */
  method DeactivateUser(repo: UserRepository, id: Guid, toDto: User -> GetUserDto)
    returns (resp: Response<GetUserDto>)
    requires repo.Valid()
    modifies repo
    ensures repo.Valid()
    ensures id !in old(repo.users) ==>
              resp == Response(404, Errors([NotFound(Messages.IdNotFound(id))]), NoRoute) && repo.users == old(repo.users)
    ensures id in old(repo.users) ==>
              && repo.users == old(repo.users)[id := old(repo.users)[id].(IsActive := false)]
              && resp == Response(200, Value(toDto(repo.users[id])), NoRoute)
  {
    var outcome := Commands.DeactivateUser(repo, DeactivateUserCommand(id), toDto);
    var body: Body<GetUserDto> := if outcome.Returned? && outcome.result.Ok? then Value(outcome.result.value) else NoBody;
    resp := WriteResponse(outcome, body);
    if id !in old(repo.users) {
      assert HasNotFound(outcome.result.errors) by {
        assert outcome.result.errors[0].NotFound?;
      }
    }
  }

  /** `DeactivateUser` as written, over the handler that maps the boolean: for a stored
      id the row is deactivated, and the answer is 500 when no map from a boolean to
      `GetUserDto` exists, otherwise 200 with the mapped `true`, whoever the user. */
  method DeactivateUserAsWritten(repo: UserRepository, id: Guid, mapFlag: bool -> Option<GetUserDto>)
    returns (resp: Response<GetUserDto>)
    requires repo.Valid()
    modifies repo
    ensures repo.Valid()
    ensures id !in old(repo.users) ==>
              resp == Response(404, Errors([NotFound(Messages.IdNotFound(id))]), NoRoute) && repo.users == old(repo.users)
    ensures id in old(repo.users) ==>
              && repo.users == old(repo.users)[id := old(repo.users)[id].(IsActive := false)]
              && (mapFlag(true).None? ==> resp.status == 500)
              && (mapFlag(true).Some? ==> resp == Response(200, Value(mapFlag(true).value), NoRoute))
  {
    var outcome := Commands.DeactivateUserAsWritten(repo, DeactivateUserCommand(id), mapFlag);
    var body: Body<GetUserDto> := if outcome.Returned? && outcome.result.Ok? then Value(outcome.result.value) else NoBody;
    resp := WriteResponse(outcome, body);
    if id !in old(repo.users) {
      assert HasNotFound(outcome.result.errors) by {
        assert outcome.result.errors[0].NotFound?;
      }
    }
  }

  /** `HardDeleteUser`: 404 with the errors for an unknown id, otherwise 200 with an
      empty body and the row gone. */
  method HardDeleteUser(repo: UserRepository, id: Guid) returns (resp: Response<()>)
    requires repo.Valid()
    modifies repo
    ensures repo.Valid()
    ensures id !in old(repo.users) ==>
              resp == Response(404, Errors([NotFound(Messages.IdNotFound(id))]), NoRoute) && repo.users == old(repo.users)
    ensures id in old(repo.users) ==>
              resp == Response(200, NoBody, NoRoute) && repo.users == old(repo.users) - {id}
  {
    var outcome := Commands.DeleteUser(repo, DeleteUserCommand(id));
    resp := WriteResponse(outcome, NoBody);
    if id !in old(repo.users) {
      assert HasNotFound(outcome.result.errors) by {
        assert outcome.result.errors[0].NotFound?;
      }
    }
  }
}
