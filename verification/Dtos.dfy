/** The request and response shapes that cross the handler boundary. */
module Dtos {
  import opened Wrappers
  import opened Domain

  /** The body of a create request. */
  datatype CreateUserDto = CreateUserDto(FirstName: string, LastName: string, Email: string, Password: string)

  /** The body of an update request: the full set of writable fields and the target id. */
  datatype UpdateUserDto = UpdateUserDto(
    Id: Guid, FirstName: string, LastName: string, Email: string, Password: string, IsActive: bool)

  /** The body of a search-by-email request. */
  datatype GetUserByEmailDto = GetUserByEmailDto(Email: string)

  /** The outward view of a user: no password hash. */
  datatype GetUserDto = GetUserDto(
    Id: Guid,
    FirstName: Option<string>,
    LastName: Option<string>,
    Email: Option<string>,
    CreatedAt: DateTime,
    IsActive: bool)

  /** The query objects the id-only operations and the listing carry. */
  datatype GetUserByIdQuery = GetUserByIdQuery(Id: Guid)
  datatype DeactivateUserCommand = DeactivateUserCommand(Id: Guid)
  datatype DeleteUserCommand = DeleteUserCommand(Id: Guid)
  datatype GetAllUsersQuery = GetAllUsersQuery(PageNumber: Option<int>, PageSize: Option<int>)
}
