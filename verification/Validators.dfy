/** The FluentValidation rule sets. Each rule chain runs every rule in it (the default
    cascade mode), each failing rule contributes its message, and the chains of a
    validator contribute in declaration order. */
module Validators {
  import opened Wrappers
  import opened Text
  import opened Domain
  import opened Dtos
  import opened Repository

  const FirstNameRequired := "First name is required."
  const FirstNameTooLong := "First name must not exceed 50 characters."
  const LastNameRequired := "Last name is required."
  const LastNameTooLong := "Last name must not exceed 50 characters."
  const EmailRequired := "Email is required."
  const EmailInvalid := "Invalid email format."
  const EmailTooLong := "Email must not exceed 100 characters."
  const EmailNotUnique := "Email must be unique."
  const PasswordRequired := "Password is required."
  const PasswordTooShort := "Password must be at least 6 characters long."
  const IdRequired := "Id is required."

  /** `NotEmpty()` on a string: fails on an empty or white-space-only value. */
  function NotEmpty(s: string, message: string): seq<string>
  {
    if IsBlank(s) then [message] else []
  }

  /** `MaximumLength(n)`: fails when the value has more than `n` characters. */
  function MaximumLength(s: string, n: nat, message: string): seq<string>
  {
    if |s| > n then [message] else []
  }

  /** `MinimumLength(n)`: fails when the value has fewer than `n` characters. */
  function MinimumLength(s: string, n: nat, message: string): seq<string>
  {
    if |s| < n then [message] else []
  }

  /** `RuleFor(x => x.FirstName)` / `RuleFor(x => x.LastName)`: required, at most 50
      characters. */
  function NameRules(name: string, required: string, tooLong: string): (errs: seq<string>)
    requires required != tooLong
    ensures required in errs <==> IsBlank(name)
    ensures tooLong in errs <==> |name| > 50
    ensures forall m :: m in errs ==> m == required || m == tooLong
    ensures errs == [] <==> !IsBlank(name) && |name| <= 50
  {
    NotEmpty(name, required) + MaximumLength(name, 50, tooLong)
  }

  /** The three shape rules on an email: required, email-shaped (`isEmail` stands for
      FluentValidation's check), at most 100 characters. */
  function EmailShapeRules(email: string, isEmail: string -> bool): (errs: seq<string>)
    ensures EmailRequired in errs <==> IsBlank(email)
    ensures EmailInvalid in errs <==> !isEmail(email)
    ensures EmailTooLong in errs <==> |email| > 100
    ensures forall m :: m in errs ==> m == EmailRequired || m == EmailInvalid || m == EmailTooLong
    ensures errs == [] <==> !IsBlank(email) && isEmail(email) && |email| <= 100
  {
    NotEmpty(email, EmailRequired)
      + (if isEmail(email) then [] else [EmailInvalid])
      + MaximumLength(email, 100, EmailTooLong)
  }

  /** `RuleFor(x => x.Password)`: required, at least 6 characters. */
  function PasswordRules(password: string): (errs: seq<string>)
    ensures PasswordRequired in errs <==> IsBlank(password)
    ensures PasswordTooShort in errs <==> |password| < 6
    ensures forall m :: m in errs ==> m == PasswordRequired || m == PasswordTooShort
    ensures errs == [] <==> !IsBlank(password) && |password| >= 6
  {
    NotEmpty(password, PasswordRequired) + MinimumLength(password, 6, PasswordTooShort)
  }

  /** Everything `CreateUserDtoValidator` demands of a request. */
  predicate CreateUserDtoIsValid(dto: CreateUserDto, repo: UserRepository, isEmail: string -> bool)
    reads repo
    requires repo.Valid()
  {
    && !IsBlank(dto.FirstName) && |dto.FirstName| <= 50
    && !IsBlank(dto.LastName) && |dto.LastName| <= 50
    && !IsBlank(dto.Email) && isEmail(dto.Email) && |dto.Email| <= 100
    && !repo.ExistsByEmail(dto.Email)
    && !IsBlank(dto.Password) && |dto.Password| >= 6
  }

  /** The four rule chains of `CreateUserDtoValidator`, in declaration order, given the
      store's answer to the uniqueness rule's lookup (`emailTaken`). */
  function CreateUserRules(dto: CreateUserDto, emailTaken: bool, isEmail: string -> bool): (errs: seq<string>)
    ensures errs == [] <==>
      && !IsBlank(dto.FirstName) && |dto.FirstName| <= 50
      && !IsBlank(dto.LastName) && |dto.LastName| <= 50
      && !IsBlank(dto.Email) && isEmail(dto.Email) && |dto.Email| <= 100
      && !emailTaken
      && !IsBlank(dto.Password) && |dto.Password| >= 6
  {
    NameRules(dto.FirstName, FirstNameRequired, FirstNameTooLong)
      + NameRules(dto.LastName, LastNameRequired, LastNameTooLong)
      + EmailShapeRules(dto.Email, isEmail)
      + (if emailTaken then [EmailNotUnique] else [])
      + PasswordRules(dto.Password)
  }

  /** `CreateUserDtoValidator`: the rule chains, with the uniqueness rule asking the
      store; it reports nothing exactly when the request is valid. */
  function CreateUserDtoValidator(dto: CreateUserDto, repo: UserRepository, isEmail: string -> bool): (errs: seq<string>)
    reads repo
    requires repo.Valid()
    ensures errs == [] <==> CreateUserDtoIsValid(dto, repo, isEmail)
    ensures EmailNotUnique in errs <==> repo.ExistsByEmail(dto.Email)
  {
    var taken := repo.ExistsByEmail(dto.Email);
    CreateUserEmailMessages(dto, taken, isEmail);
    CreateUserRules(dto, taken, isEmail)
  }

  /** `CreateUserDtoValidator` of the explicit iteration: the same four chains, but the
      email chain has no uniqueness rule, so the verdict never depends on the store. */
  function CreateUserDtoShapeValidator(dto: CreateUserDto, isEmail: string -> bool): (errs: seq<string>)
    ensures errs == [] <==>
      && !IsBlank(dto.FirstName) && |dto.FirstName| <= 50
      && !IsBlank(dto.LastName) && |dto.LastName| <= 50
      && !IsBlank(dto.Email) && isEmail(dto.Email) && |dto.Email| <= 100
      && !IsBlank(dto.Password) && |dto.Password| >= 6
    ensures EmailNotUnique !in errs
  {
    CreateUserEmailMessages(dto, false, isEmail);
    CreateUserRules(dto, false, isEmail)
  }

  /** A message is in a five-part concatenation exactly when it is in one part. */
  lemma InConcat(m: string, a: seq<string>, b: seq<string>, c: seq<string>, d: seq<string>, e: seq<string>)
    ensures m in a + b + c + d + e <==> m in a || m in b || m in c || m in d || m in e
  {
  }

  /** The rule chains report each first-name message exactly when its rule fails. */
  lemma CreateUserFirstNameMessages(dto: CreateUserDto, emailTaken: bool, isEmail: string -> bool)
    ensures var errs := CreateUserRules(dto, emailTaken, isEmail);
      && (FirstNameRequired in errs <==> IsBlank(dto.FirstName))
      && (FirstNameTooLong in errs <==> |dto.FirstName| > 50)
  {
    var first := NameRules(dto.FirstName, FirstNameRequired, FirstNameTooLong);
    var last := NameRules(dto.LastName, LastNameRequired, LastNameTooLong);
    var email := EmailShapeRules(dto.Email, isEmail);
    var unique := if emailTaken then [EmailNotUnique] else [];
    var password := PasswordRules(dto.Password);
    MessagesDistinct();
    InConcat(FirstNameRequired, first, last, email, unique, password);
    InConcat(FirstNameTooLong, first, last, email, unique, password);
  }

  /** The rule chains report each last-name message exactly when its rule fails. */
  lemma CreateUserLastNameMessages(dto: CreateUserDto, emailTaken: bool, isEmail: string -> bool)
    ensures var errs := CreateUserRules(dto, emailTaken, isEmail);
      && (LastNameRequired in errs <==> IsBlank(dto.LastName))
      && (LastNameTooLong in errs <==> |dto.LastName| > 50)
  {
    var first := NameRules(dto.FirstName, FirstNameRequired, FirstNameTooLong);
    var last := NameRules(dto.LastName, LastNameRequired, LastNameTooLong);
    var email := EmailShapeRules(dto.Email, isEmail);
    var unique := if emailTaken then [EmailNotUnique] else [];
    var password := PasswordRules(dto.Password);
    MessagesDistinct();
    InConcat(LastNameRequired, first, last, email, unique, password);
    InConcat(LastNameTooLong, first, last, email, unique, password);
  }

  /** The rule chains report each email message exactly when its rule fails; the
      uniqueness message exactly when the store holds the email. */
  lemma CreateUserEmailMessages(dto: CreateUserDto, emailTaken: bool, isEmail: string -> bool)
    ensures var errs := CreateUserRules(dto, emailTaken, isEmail);
      && (EmailRequired in errs <==> IsBlank(dto.Email))
      && (EmailInvalid in errs <==> !isEmail(dto.Email))
      && (EmailTooLong in errs <==> |dto.Email| > 100)
      && (EmailNotUnique in errs <==> emailTaken)
  {
    var first := NameRules(dto.FirstName, FirstNameRequired, FirstNameTooLong);
    var last := NameRules(dto.LastName, LastNameRequired, LastNameTooLong);
    var email := EmailShapeRules(dto.Email, isEmail);
    var unique := if emailTaken then [EmailNotUnique] else [];
    var password := PasswordRules(dto.Password);
    MessagesDistinct();
    InConcat(EmailRequired, first, last, email, unique, password);
    InConcat(EmailInvalid, first, last, email, unique, password);
    InConcat(EmailTooLong, first, last, email, unique, password);
    InConcat(EmailNotUnique, first, last, email, unique, password);
  }

  /** The rule chains report each password message exactly when its rule fails. */
  lemma CreateUserPasswordMessages(dto: CreateUserDto, emailTaken: bool, isEmail: string -> bool)
    ensures var errs := CreateUserRules(dto, emailTaken, isEmail);
      && (PasswordRequired in errs <==> IsBlank(dto.Password))
      && (PasswordTooShort in errs <==> |dto.Password| < 6)
  {
    var first := NameRules(dto.FirstName, FirstNameRequired, FirstNameTooLong);
    var last := NameRules(dto.LastName, LastNameRequired, LastNameTooLong);
    var email := EmailShapeRules(dto.Email, isEmail);
    var unique := if emailTaken then [EmailNotUnique] else [];
    var password := PasswordRules(dto.Password);
    MessagesDistinct();
    InConcat(PasswordRequired, first, last, email, unique, password);
    InConcat(PasswordTooShort, first, last, email, unique, password);
  }

  /** The messages of different rules differ. */
  lemma MessagesDistinct()
    ensures FirstNameRequired !in [LastNameRequired, LastNameTooLong, EmailRequired, EmailInvalid, EmailTooLong, EmailNotUnique, PasswordRequired, PasswordTooShort]
    ensures FirstNameTooLong !in [LastNameRequired, LastNameTooLong, EmailRequired, EmailInvalid, EmailTooLong, EmailNotUnique, PasswordRequired, PasswordTooShort]
    ensures LastNameRequired !in [EmailRequired, EmailInvalid, EmailTooLong, EmailNotUnique, PasswordRequired, PasswordTooShort]
    ensures LastNameTooLong !in [EmailRequired, EmailInvalid, EmailTooLong, EmailNotUnique, PasswordRequired, PasswordTooShort]
    ensures EmailRequired !in [EmailNotUnique, PasswordRequired, PasswordTooShort]
    ensures EmailInvalid !in [EmailNotUnique, PasswordRequired, PasswordTooShort]
    ensures EmailTooLong !in [EmailNotUnique, PasswordRequired, PasswordTooShort]
    ensures EmailNotUnique !in [PasswordRequired, PasswordTooShort]
  {
    assert EmailInvalid[0] != EmailNotUnique[0] && EmailInvalid[0] != PasswordRequired[0];
    assert EmailNotUnique[0] != PasswordRequired[0];
  }

  /** `GetUserByEmailDtoValidator`: the email shape rules and no uniqueness rule; it
      takes no store, so its verdict cannot depend on one. */
  function GetUserByEmailDtoValidator(dto: GetUserByEmailDto, isEmail: string -> bool): (errs: seq<string>)
    ensures EmailRequired in errs <==> IsBlank(dto.Email)
    ensures EmailInvalid in errs <==> !isEmail(dto.Email)
    ensures EmailTooLong in errs <==> |dto.Email| > 100
    ensures errs == [] <==> !IsBlank(dto.Email) && isEmail(dto.Email) && |dto.Email| <= 100
    ensures |errs| <= 3
  {
    EmailShapeRules(dto.Email, isEmail)
  }

  /** `GetUserByIdQueryValidator`: one rule, `NotEmpty` on the id, which rejects
      `Guid.Empty` only. */
  function GetUserByIdQueryValidator(query: GetUserByIdQuery): (errs: seq<string>)
    ensures errs == [] <==> query.Id != EmptyGuid
    ensures errs != [] ==> errs == [IdRequired]
  {
    if query.Id == EmptyGuid then [IdRequired] else []
  }

  /** With the default cascade both password rules run, so an empty password is
      reported twice. */
  lemma EmptyPasswordFailsBothRules()
    ensures PasswordRules("") == [PasswordRequired, PasswordTooShort]
  {
    assert IsBlank("");
  }

  /** A request the create validator accepts carries an email no stored user has, so
      the handler's own duplicate check cannot fire after it. */
  lemma AcceptedEmailIsFree(dto: CreateUserDto, repo: UserRepository, isEmail: string -> bool)
    requires repo.Valid()
    requires CreateUserDtoValidator(dto, repo, isEmail) == []
    ensures repo.GetByEmail(dto.Email).None?
    ensures forall id :: id in repo.users ==> repo.users[id].Email != Some(dto.Email)
  {
    assert !repo.ExistsByEmail(dto.Email);
  }

  /** On the email field the create validator reports what the search validator
      reports, plus the uniqueness failure. */
  lemma EmailRulesShared(dto: CreateUserDto, repo: UserRepository, isEmail: string -> bool)
    requires repo.Valid()
    ensures var search := GetUserByEmailDtoValidator(GetUserByEmailDto(dto.Email), isEmail);
      forall m :: m in search ==> m in CreateUserDtoValidator(dto, repo, isEmail)
  {
    CreateUserEmailMessages(dto, repo.ExistsByEmail(dto.Email), isEmail);
  }
}
