/** The two auth collections' documents (EmailSchema, UserSchema) and the
    domain records the repository hands out (Email, User). */
module AuthModels {
  import opened Wrappers
  import opened Strings
  import opened Tables

  /** Stand-ins for the store's error objects: a failed `required` validator
      on save, and a violated unique index. */
  const EmailValidationFailed := "Email validation failed"
  const UserValidationFailed := "User validation failed"
  const DuplicateKey := "E11000 duplicate key error"

  /** An allow-list document: an address that may register, with its role. */
  datatype EmailDoc = EmailDoc(email: string, role: string, hasUser: bool)

  /** A user document; `password` holds the hash, never the plain text. */
  datatype UserDoc = UserDoc(username: string, email: string, password: string, role: string, isConfirmed: bool)

  datatype Email = Email(id: Id, email: string, role: string, hasUser: bool)

  datatype User = User(id: Id, username: string, email: string, password: string, role: string, isConfirmed: bool)

  function EmailOf(id: Id, d: EmailDoc): Email
  {
    Email(id, d.email, d.role, d.hasUser)
  }

  function UserOf(id: Id, d: UserDoc): User
  {
    User(id, d.username, d.email, d.password, d.role, d.isConfirmed)
  }

  /** Saving a new allow-list document: `email` and `role` are required
      (a string is missing when empty), `hasUser` defaults to false, and the
      address is stored as given (the schema has no lower-case option). */
  function NewEmailDoc(email: string, role: string): (r: Result<EmailDoc>)
    ensures r.Ok? <==> email != "" && role != ""
    ensures r.Ok? ==> r.value.email == email && r.value.role == role && !r.value.hasUser
    ensures r.Err? ==> r.error == EmailValidationFailed
  {
    if email == "" || role == "" then Err(EmailValidationFailed)
    else Ok(EmailDoc(email, role, false))
  }

  /** Saving a new user document: all four strings are required, the address
      is lower-cased by the schema and `isConfirmed` defaults to false. */
  function NewUserDoc(username: string, email: string, password: string, role: string): (r: Result<UserDoc>)
    ensures r.Ok? <==> username != "" && email != "" && password != "" && role != ""
    ensures r.Ok? ==> r.value == UserDoc(username, Lower(email), password, role, false)
    ensures r.Ok? ==> IsLower(r.value.email) && !r.value.isConfirmed
    ensures r.Err? ==> r.error == UserValidationFailed
  {
    if username == "" || email == "" || password == "" || role == "" then Err(UserValidationFailed)
    else Ok(UserDoc(username, Lower(email), password, role, false))
  }
}
