/** The query handlers: by id, by email (both iterations) and the paged listing. They
    only read the store. */
module Queries {
  import opened Wrappers
  import opened Domain
  import opened Results
  import opened Dtos
  import opened Repository
  import opened Messages
  import Int32
  import Validators

  /** `GetUserByIdQueryHandler.Handle`: the mapped row, or a `NotFoundError`. */
  function GetUserById(repo: UserRepository, query: GetUserByIdQuery, toDto: User -> GetUserDto): (r: Result<GetUserDto>)
    reads repo
    requires repo.Valid()
    ensures query.Id !in repo.users <==> r == Fail([NotFound(IdNotFound(query.Id))])
    ensures r.Ok? <==> query.Id in repo.users
    ensures r.Ok? ==> r.value == toDto(repo.users[query.Id])
  {
    match repo.GetById(query.Id)
    case None => Fail([NotFound(IdNotFound(query.Id))])
    case Some(user) => Ok(toDto(user))
  }

  /** `GetUserByEmailQueryHandler.Handle`, `NotFoundError` iteration. `validation` holds
      the messages of the injected validator. */
  function GetUserByEmail(repo: UserRepository, dto: GetUserByEmailDto, validation: seq<string>,
                          toDto: User -> GetUserDto): (r: Result<GetUserDto>)
    reads repo
    requires repo.Valid()
    ensures validation != [] ==> r == Fail(PlainErrors(validation))
    ensures validation == [] && r.Fail? ==>
              r == Fail([NotFound(EmailNotFound(dto.Email))])
              && forall id :: id in repo.users ==> repo.users[id].Email != Some(dto.Email)
    ensures r.Ok? ==> exists id :: id in repo.users && repo.users[id].Email == Some(dto.Email)
                                   && r.value == toDto(repo.users[id])
  {
    if validation != [] then Fail(PlainErrors(validation))
    else match repo.GetByEmail(dto.Email)
      case None => Fail([NotFound(EmailNotFound(dto.Email))])
      case Some(user) => Ok(toDto(user))
  }

  /** `GetUserByEmailQueryHandler.Handle`, plain-error iteration: an unknown email
      fails with the plain message "User not found". */
  function GetUserByEmailPlain(repo: UserRepository, dto: GetUserByEmailDto, validation: seq<string>,
                               toDto: User -> GetUserDto): (r: Result<GetUserDto>)
    reads repo
    requires repo.Valid()
    ensures validation != [] ==> r == Fail(PlainErrors(validation))
    ensures validation == [] && r.Fail? ==>
              r == Fail([Plain(UserNotFound)])
              && forall id :: id in repo.users ==> repo.users[id].Email != Some(dto.Email)
    ensures r.Ok? ==> exists id :: id in repo.users && repo.users[id].Email == Some(dto.Email)
                                   && r.value == toDto(repo.users[id])
    ensures r.Fail? ==> !HasNotFound(r.errors)
  {
    if validation != [] then Fail(PlainErrors(validation))
    else match repo.GetByEmail(dto.Email)
      case None => Fail([Plain(UserNotFound)])
      case Some(user) => Ok(toDto(user))
  }

  /** The two iterations agree except on the failure they report for an unknown email. */
  lemma EmailQueriesAgree(repo: UserRepository, dto: GetUserByEmailDto, validation: seq<string>, toDto: User -> GetUserDto)
    requires repo.Valid()
    ensures GetUserByEmail(repo, dto, validation, toDto).Ok? <==> GetUserByEmailPlain(repo, dto, validation, toDto).Ok?
    ensures GetUserByEmail(repo, dto, validation, toDto).Ok? ==>
              GetUserByEmail(repo, dto, validation, toDto) == GetUserByEmailPlain(repo, dto, validation, toDto)
  {
  }

  /** Run with the search validator, a request with a blank email fails on validation
      with "Email is required." among its errors and never reaches the store. */
  lemma BlankEmailRejected(repo: UserRepository, dto: GetUserByEmailDto, isEmail: string -> bool, toDto: User -> GetUserDto)
    requires repo.Valid()
    requires Text.IsBlank(dto.Email)
    ensures var r := GetUserByEmail(repo, dto, Validators.GetUserByEmailDtoValidator(dto, isEmail), toDto);
      r.Fail? && Plain(Validators.EmailRequired) in r.errors && !HasNotFound(r.errors)
  {
    var errs := Validators.GetUserByEmailDtoValidator(dto, isEmail);
    var i :| 0 <= i < |errs| && errs[i] == Validators.EmailRequired;
    assert PlainErrors(errs)[i] == Plain(Validators.EmailRequired);
    PlainErrorsAreNotNotFound(errs);
  }

  const DefaultPageSize := 3

  /** `PageSize.GetValueOrDefault(3)`: a supplied size is used as it is. */
  function PageSizeOf(query: GetAllUsersQuery): (size: int)
    ensures query.PageSize.Some? ==> size == query.PageSize.value
    ensures query.PageSize.None? ==> size == DefaultPageSize
  {
    query.PageSize.GetOr(DefaultPageSize)
  }

  /** The one-based page number turned zero-based, with everything at or below 1
      selecting the first page. The subtraction is over the integers; see
      `ZeroBasedPageAsWritten` for `int` arithmetic. */
  function ZeroBasedPage(query: GetAllUsersQuery): (n: int)
    ensures n >= 0
    ensures query.PageNumber.None? || query.PageNumber.value <= 1 ==> n == 0
    ensures query.PageNumber.Some? && query.PageNumber.value >= 1 ==> n == query.PageNumber.value - 1
  {
    if query.PageNumber.Some? then Int32.MaxOf(query.PageNumber.value - 1, 0) else 0
  }

  predicate IsInt32Query(query: GetAllUsersQuery) {
    && (query.PageNumber.Some? ==> Int32.IsInt32(query.PageNumber.value))
    && (query.PageSize.Some? ==> Int32.IsInt32(query.PageSize.value))
  }

  /** `Math.Max(PageNumber.Value - 1, 0)` in C#'s wrapping `int` arithmetic. */
  function ZeroBasedPageAsWritten(query: GetAllUsersQuery): (n: int)
    requires IsInt32Query(query)
    ensures Int32.IsInt32(n) && n >= 0
    ensures query.PageNumber.None? || query.PageNumber.value > Int32.Min ==> n == ZeroBasedPage(query)
  {
    if query.PageNumber.Some? then Int32.MaxOf(Int32.Wrap(query.PageNumber.value - 1), 0) else 0
  }

  /** Page number `int.MinValue` wraps to the last representable page instead of
      selecting the first one. */
  lemma MinValuePageNumberWraps()
    ensures ZeroBasedPageAsWritten(GetAllUsersQuery(Some(Int32.Min), None)) == Int32.Max
    ensures ZeroBasedPage(GetAllUsersQuery(Some(Int32.Min), None)) == 0
  {
    assert Int32.Wrap(Int32.Min - 1) == Int32.Max;
  }

  /** Maps every user of a page, keeping length and order. */
  function MapAll(page: seq<User>, toDto: User -> GetUserDto): (dtos: seq<GetUserDto>)
    ensures |dtos| == |page|
    ensures forall k :: 0 <= k < |page| ==> dtos[k] == toDto(page[k])
  {
    seq(|page|, k requires 0 <= k < |page| => toDto(page[k]))
  }

  /** `GetAllUsersQueryHandler.Handle`: the mapped page, or "No users found." for an
      empty page. */
  function GetAllUsers(repo: UserRepository, query: GetAllUsersQuery, toDto: User -> GetUserDto): (r: Result<seq<GetUserDto>>)
    reads repo
    requires repo.Valid()
    ensures var page := repo.GetAll(ZeroBasedPage(query), PageSizeOf(query));
      && (page == [] <==> r == Fail([Plain(NoUsersFound)]))
      && (page != [] ==> r.Ok? && |r.value| == |page| && forall k :: 0 <= k < |page| ==> r.value[k] == toDto(page[k]))
  {
    var users := repo.GetAll(ZeroBasedPage(query), PageSizeOf(query));
    if |users| == 0 then Fail([Plain(NoUsersFound)]) else Ok(MapAll(users, toDto))
  }

  /** The same handler with `int` arithmetic both here and in the repository. */
  function GetAllUsersAsWritten(repo: UserRepository, query: GetAllUsersQuery, toDto: User -> GetUserDto): (r: Result<seq<GetUserDto>>)
    reads repo
    requires repo.Valid() && IsInt32Query(query)
    ensures var page := repo.GetAllAsWritten(ZeroBasedPageAsWritten(query), PageSizeOf(query));
      && (page == [] <==> r == Fail([Plain(NoUsersFound)]))
      && (page != [] ==> r.Ok? && |r.value| == |page| && forall k :: 0 <= k < |page| ==> r.value[k] == toDto(page[k]))
  {
    var users := repo.GetAllAsWritten(ZeroBasedPageAsWritten(query), PageSizeOf(query));
    if |users| == 0 then Fail([Plain(NoUsersFound)]) else Ok(MapAll(users, toDto))
  }

  /** Every page number at or below 1 lists the same page as no page number. */
  lemma LowPageNumbersListFirstPage(repo: UserRepository, n: int, size: Option<int>, toDto: User -> GetUserDto)
    requires repo.Valid() && n <= 1
    ensures GetAllUsers(repo, GetAllUsersQuery(Some(n), size), toDto) == GetAllUsers(repo, GetAllUsersQuery(None, size), toDto)
  {
    assert ZeroBasedPage(GetAllUsersQuery(Some(n), size)) == ZeroBasedPage(GetAllUsersQuery(None, size));
  }

  /** With no parameters, a non-empty store lists its first `min(3, count)` users in
      id order. */
  lemma DefaultQueryListsFirstUsers(repo: UserRepository, toDto: User -> GetUserDto)
    requires repo.Valid() && repo.users != map[]
    ensures var r := GetAllUsers(repo, GetAllUsersQuery(None, None), toDto);
      && r.Ok?
      && |r.value| == (if |repo.users| < 3 then |repo.users| else 3)
      && forall k :: 0 <= k < |r.value| ==> r.value[k] == toDto(repo.Rows()[k])
  {
    assert |repo.users| > 0;
    assert Int32.MaxOf(0 * 3, 0) == 0;
  }

  /** A supplied size of zero or less is not replaced by the default: nothing is
      listed. */
  lemma NonPositivePageSizeListsNothing(repo: UserRepository, number: Option<int>, size: int, toDto: User -> GetUserDto)
    requires repo.Valid() && size <= 0
    ensures GetAllUsers(repo, GetAllUsersQuery(number, Some(size)), toDto) == Fail([Plain(NoUsersFound)])
  {
  }

  /** With page number `int.MinValue` and the default size, the wrapped page number and
      the wrapped offset send the listing past the end: it reports "No users found."
      where the first page was meant. */
  lemma MinValuePageNumberFindsNothing(repo: UserRepository, toDto: User -> GetUserDto)
    requires repo.Valid() && 0 < |repo.users| <= 0x7FFF_FFFD
    ensures GetAllUsersAsWritten(repo, GetAllUsersQuery(Some(Int32.Min), None), toDto) == Fail([Plain(NoUsersFound)])
    ensures GetAllUsers(repo, GetAllUsersQuery(Some(Int32.Min), None), toDto).Ok?
  {
    var query := GetAllUsersQuery(Some(Int32.Min), None);
    MinValuePageNumberWraps();
    assert Int32.Wrap(Int32.Max * 3) == 0x7FFF_FFFD;
    DefaultQueryListsFirstUsers(repo, toDto);
    LowPageNumbersListFirstPage(repo, Int32.Min, None, toDto);
  }
}
