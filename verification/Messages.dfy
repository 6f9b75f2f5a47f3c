/** The failure messages the handlers build, with their interpolated values. */
module Messages {
  import opened Domain

  const NoUsersFound := "No users found."
  const UserNotFound := "User not found"

  function AlreadyExists(email: string): string {
    "User with email '" + email + "' already exists."
  }

  /** An id is interpolated in its 36-character text form. */
  function IdNotFound(id: Guid): string {
    "User with ID '" + GuidText(id) + "' not found."
  }

  /** A not-found message names one id only: different ids give different messages. */
  lemma IdNotFoundNamesId(a: Guid, b: Guid)
    ensures IdNotFound(a) == IdNotFound(b) ==> a == b
  {
    if IdNotFound(a) == IdNotFound(b) {
      assert IdNotFound(a)[14..50] == GuidText(a);
      assert IdNotFound(b)[14..50] == GuidText(b);
      GuidTextInjective(a, b);
    }
  }

  function EmailNotFound(email: string): string {
    "User with Email '" + email + "' not found."
  }
}
