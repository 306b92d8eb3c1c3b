/** The rejection messages of the auth use cases, spelled as the source
    spells them. */
module AuthMessages {
  const EmailNotAllowed := "This email is not allowed"
  const UserAlreadyExists := "User already exists"
  const UserDoesNotExists := "User does not exists"
  const ConfirmationError := "Confirmation error"
  const InvalidEmailOrPassword := "Invalid email or password"
  const ProfileNotConfirmed := "Profile is not confirmed"
  const InvalidEmail := "Invalid email"
  const PasswordsMustBeSame := "Passwords must be the same"
  const InvalidUserId := "Invalid user id"
  const InvalidOldPassword := "Invalid old password"
  const UserDoesNotExist := "User does not exist"
  const EmailDoesNotExist := "Email does not exist"
  const EmailAlreadyExists := "Email already exists"
  const NoEmailsFound := "No emails found"
  const NoUsersFound := "No users found"
}
