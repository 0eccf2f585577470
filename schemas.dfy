/**
 * The request and response shapes of the API and the validators attached to
 * them: the login request's two non-blank checks, the new-password rule of a
 * profile update, and the password-free projection of a user that every
 * response carries.
 */
module Schemas {
  import opened Common
  import opened Models
  import Text
  import Crypto

  /** The outcome of a field validator: the value it returns, or the ValueError it raises. */
  datatype Validated<T> = Valid(value: T) | Invalid(message: string)

  datatype UserCreate = UserCreate(
    name: string,
    username: string,
    email: string,
    password: string,
    role: string,
    disease: Option<string>,
    dateOfBirth: Option<int>,
    placeOfBirth: Option<string>)

  /** What responses show of a user; there is no password or hash field. */
  datatype UserResponse = UserResponse(
    id: nat,
    name: string,
    username: string,
    email: string,
    role: string,
    disease: Option<string>,
    dateOfBirth: Option<int>,
    placeOfBirth: Option<string>)

  /** `UserResponse.from_orm(user)`. */
  function ToResponse(u: User): (r: UserResponse)
    ensures r.id == u.id && r.username == u.username && r.email == u.email
    ensures r.name == u.name && r.role == u.role && r.disease == u.disease
    ensures r.dateOfBirth == u.dateOfBirth && r.placeOfBirth == u.placeOfBirth
  {
    UserResponse(u.id, u.name, u.username, u.email, u.role, u.disease, u.dateOfBirth, u.placeOfBirth)
  }

  /** The projection carries nothing of the stored hash: users that differ only there look the same. */
  lemma ResponseHidesPassword(u: User, other: Crypto.Digest)
    ensures ToResponse(u) == ToResponse(u.(hashedPassword := other))
  {
  }

  datatype LoginRequest = LoginRequest(identifier: string, password: string)

  /** The check both login validators make: `not v or not v.strip()` raises, anything else is returned as it is. */
  function NotBlank(v: string, message: string): (r: Validated<string>)
    ensures r.Valid? <==> !Text.IsBlank(v)
    ensures r.Valid? ==> r.value == v
    ensures r.Invalid? ==> r.message == message
  {
    Text.StripEmptyIffBlank(v);
    if v == "" || Text.Strip(v) == "" then Invalid(message) else Valid(v)
  }

  /** `LoginRequest.identifier_not_empty`. */
  function ValidateIdentifier(v: string): (r: Validated<string>)
    ensures r.Valid? <==> !Text.IsBlank(v)
    ensures r.Valid? ==> r.value == v
  {
    NotBlank(v, "Identifier tidak boleh kosong")
  }

  /** `LoginRequest.password_not_empty`. */
  function ValidatePassword(v: string): (r: Validated<string>)
    ensures r.Valid? <==> !Text.IsBlank(v)
    ensures r.Valid? ==> r.value == v
  {
    NotBlank(v, "Password tidak boleh kosong")
  }

  /** Parsing a login body: the identifier is validated first, then the password. */
  function ParseLoginRequest(identifier: string, password: string): (r: Validated<LoginRequest>)
    ensures r.Valid? <==> !Text.IsBlank(identifier) && !Text.IsBlank(password)
    ensures r.Valid? ==> r.value == LoginRequest(identifier, password)
  {
    match ValidateIdentifier(identifier)
    case Invalid(m) => Invalid(m)
    case Valid(i) =>
      match ValidatePassword(password)
      case Invalid(m) => Invalid(m)
      case Valid(p) => Valid(LoginRequest(i, p))
  }

  datatype UserProfileUpdate = UserProfileUpdate(
    name: Option<string>,
    email: Option<string>,
    currentPassword: Option<string>,
    newPassword: Option<string>,
    username: Option<string>,
    disease: Option<string>,
    dateOfBirth: Option<int>,
    placeOfBirth: Option<string>)

  /**
   * `UserProfileUpdate.validate_new_password`: a new password needs a
   * nonempty current password and at least six characters; an absent one
   * always passes.
   */
  function ValidateNewPassword(currentPassword: Option<string>, newPassword: Option<string>): (r: Validated<Option<string>>)
    ensures r.Valid? <==> newPassword.None? || (TruthyText(currentPassword) && |newPassword.value| >= 6)
    ensures r.Valid? ==> r.value == newPassword
  {
    if newPassword.None? then Valid(newPassword)
    else if !TruthyText(currentPassword) then Invalid("Untuk mengganti password, current_password harus diberikan")
    else if |newPassword.value| < 6 then Invalid("Password baru harus memiliki setidaknya 6 karakter")
    else Valid(newPassword)
  }

  /** A new password given with a missing or empty current password is refused, whatever its length. */
  lemma NewPasswordNeedsCurrent(newPassword: string)
    ensures ValidateNewPassword(None, Some(newPassword)).Invalid?
    ensures ValidateNewPassword(Some(""), Some(newPassword)).Invalid?
  {
  }

  datatype ActivityLogResponse = ActivityLogResponse(id: nat, userId: nat, action: string, timestamp: int)

  function LogResponse(log: ActivityLog): ActivityLogResponse
  {
    ActivityLogResponse(log.id, log.userId, log.action, log.timestamp)
  }

  /** A field-by-field copy of a data entry, as a response. */
  datatype DataEntryResponse = DataEntryResponse(id: nat, fields: map<string, FieldValue>, ownerId: nat)

  function EntryResponse(e: DataEntry): DataEntryResponse
  {
    DataEntryResponse(e.id, e.fields, e.ownerId)
  }

  /** The summary of one chat in a chat list, or the chat that create_chat returns. */
  datatype ChatView = ChatView(
    id: string,
    recipientId: string,
    recipientName: string,
    lastMessage: Option<string>,
    lastMessageTime: Option<int>,
    unread: bool)

  /** A message as the chat endpoints return it, with the sender's name looked up. */
  datatype MessageView = MessageView(
    id: string,
    chatId: string,
    senderId: string,
    senderName: string,
    content: string,
    messageType: string,
    mediaUrl: Option<string>,
    timestamp: int,
    read: bool)

  datatype SendMessageRequest = SendMessageRequest(
    chatId: string,
    content: string,
    messageType: string,
    mediaUrl: Option<string>)

  /** The data of a successful media upload. */
  datatype MediaUpload = MediaUpload(mediaUrl: string, messageType: string)
}
