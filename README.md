# kanapp core in Dafny

This project models the server of kanapp, a FastAPI service for patients and
their carers. The model covers:

- registration and login behind a static shared secret;
- bearer-token (JWT) sessions;
- user search;
- reports with an admin-or-self viewing rule;
- the caller's own data entries;
- profile updates;
- a per-user activity log;
- two-party chats with read-on-fetch messages and media uploads.

The database is one object, `Store.Database`. Each table is a sequence of rows
in insertion order, so `query(...).first()` is the earliest matching row.
`Database.Valid()` states the integrity that the schema and the handlers keep:

- primary keys are distinct, and so are usernames and emails;
- each chat has exactly two participant rows, and no two chats share the same pair of users;
- every participant and every message sender is a known user.

Every handler that writes is a module-level method that takes that object and changes its tables. Each one states its whole new state and keeps `Valid()`.

Every handler answers with a `Reply`: `Ok(data)` and `Refused(error)` are the `{success, data, error}` envelope, and `Raised(status, detail)` is an HTTPException.

The pure parts have functions and lemmas of their own:

- the static-token gate;
- identifier classification and authentication;
- token claims and their resolution back to a user;
- validators;
- media acceptance;
- chat summaries;
- paging and ordering.

Outside influences become parameters:

- `uuid4()` is a fresh-id parameter;
- `datetime.utcnow()` is an integer clock `now` (seconds), one reading per request;
- the bcrypt salt is a `salt` parameter.

The bcrypt hash is modelled symbolically as an ideal digest (`Crypto`). JWT
signing and decoding are also symbolic: a token records its claims, key and
algorithm (`Jose`).

## Model

| member | source | states |
|---|---|---|
| Auth.VerifyStaticToken | app/auth.py:31-37 | the credential passes exactly when it equals the configured static token (nothing passes when none is configured), and is returned; otherwise 403 with the fixed message |
| Auth.SignedTokenNotStatic | app/auth.py:31-37 | a JWT issued by the service never passes the static gate |
| Auth.LookupColumn | app/auth.py:44-47 | the identifier is looked up by email exactly when some prefix of it matches `[^@]+@[^@]+\.[^@]+`, else by username |
| Text.EmailClassification | app/auth.py:44 | the executable prefix test of the classifier agrees with the regular-expression match (anchored at the start only) in both directions |
| Auth.FindByIdentifier | app/auth.py:44-47 | the user found has the identifier in the classified column; when none is found no user has it there |
| Auth.AuthenticateUser | app/auth.py:39-53 | a result is a stored user whose classified column equals the identifier and whose hash verifies the password; with no such column value the result is None |
| Auth.AuthenticateOwner | app/auth.py:39-53 | with unique usernames and emails, authenticating by a user's own email or username gives exactly that user when the password verifies and None otherwise |
| Auth.CreateAccessToken | app/auth.py:55-63 | the token carries a copy of the given claims plus `iat` = now and `exp` = now + lifetime, or now + 15 minutes when the lifetime is absent or zero; it is signed with the configured key and algorithm |
| Auth.IssuedTokenLifetime | app/auth.py:55-63 | an issued token decodes under the same settings to its claims up to its `exp` and is rejected as expired afterwards |
| Auth.GetCurrentUser | app/auth.py:65-85 | a token that fails to decode or lacks `sub` gives 401; otherwise it resolves exactly when some user holds `sub` in the column its classification picks, and the resolved user is stored and holds it there; every failure is 401 |
| Jose.Decode | app/auth.py:72-77 | in this model of the decoder, decoding succeeds exactly for a token signed with the verifier's key and algorithm, whose `iat`, `exp` and `sub` have the right types and which has not expired, and gives back its claims |
| Jose.DecodeEncoded | app/auth.py:62 | encoding then decoding with the same key returns the claims while live and Expired afterwards |
| Jose.ForeignSignatureRejected | app/auth.py:72 | a token signed with another key is rejected |
| Crypto.Hash | app/auth.py:29 | a hash verifies the password it was made from |
| Crypto.VerifyOnlyOwnPassword | app/auth.py:51 | under the ideal digest, a hash verifies its own password and no other |
| Schemas.ToResponse | app/schemas.py:30-41 | the projection copies all eight response fields of the user: key, name, username, email, role, disease, date and place of birth |
| Schemas.ResponseHidesPassword | app/schemas.py:30-38 | users that differ only in their password hash have the same projection: no response exposes the hash |
| Schemas.NotBlank | app/schemas.py:48-58 | a value is rejected exactly when it is empty or whitespace only, and an accepted one is returned unstripped |
| Text.StripEmptyIffBlank | app/schemas.py:50 | `v.strip()` is empty exactly when `v` is all whitespace |
| Schemas.ValidateIdentifier | app/schemas.py:48-52 | the identifier is rejected exactly when blank, else returned unchanged |
| Schemas.ValidatePassword | app/schemas.py:54-58 | the password is rejected exactly when blank, else returned unchanged |
| Schemas.ParseLoginRequest | app/schemas.py:44-58 | a login body is accepted exactly when neither field is blank, and then unchanged |
| Schemas.ValidateNewPassword | app/schemas.py:146-153 | an absent new password always passes; a present one passes exactly when the current password is present and nonempty and the new one has at least six characters |
| Schemas.NewPasswordNeedsCurrent | app/schemas.py:148-150 | a new password with a missing or empty current password is refused whatever its length |
| LoggingService.NewLog | app/logging_service.py:8-11 | the new entry has the given action, user and time, and a key above every existing key |
| LoggingService.NewLogKeepsKeysDistinct | app/logging_service.py:12-13 | appending the new entry keeps log keys distinct |
| LoggingService.LogActivity | app/logging_service.py:7-20 | exactly one entry is appended, the earlier entries are untouched, and the response mirrors the stored entry |
| Store.Database.constructor | app/models.py:8-68 | an empty database satisfies the integrity invariant |
| Store.SameKeysKeepReferences | app/chat_models.py:22-32 | rewriting users without changing their keys keeps every participant and message sender known |
| Store.NewUserKeepsReferences | app/chat_models.py:22-32 | inserting a user keeps every participant and message sender known |
| Models.FindBy | app/auth.py:45-47 | `filter(column == value).first()`: a result has the value in that column; None means no user has it |
| Models.FindByUnique | app/models.py:13-14 | with unique columns, a user's own email or username finds that user |
| Models.UserByOwnId | app/models.py:11 | with unique keys, a user's own key finds that user |
| Models.NextId | app/models.py:11 | an autoincrement key exceeds every key present |
| MediaService.Classify | app/media_service.py:23-34 | a content type starting "image/" is an image, "video/" a video and "audio/" audio, each exactly so; nothing else is classified |
| MediaService.Extension | app/media_service.py:26-32 | the extension holds no '/' |
| MediaService.ExtensionIsSecondField | app/media_service.py:26-32 | every classified content type contains '/', so the audio fallback "mp4" is unreachable and the extension is the text between the first and second '/' |
| MediaService.SaveMedia | app/media_service.py:12-51 | a file is saved exactly when it is at most 10 MiB and classified; the size is checked before the type; every refusal surfaces as 500 with "Error saving file: 400: ..."; a saved file is named "{kind}_{uuid}.{ext}" |
| MediaService.SavedNameIsBare | app/media_service.py:37-48 | the returned reference is a bare file name, not the joined path |
| MediaService.SizeBoundary | app/media_service.py:10-20 | exactly 10 MiB is accepted and one byte more is refused with the size message |
| ChatRoutes.UploadMediaResult | app/chat_routes.py:239-267 | an upload succeeds exactly for an image or video within the size limit; audio is refused by the route before saving; every failure, including the route's own 400, surfaces as 500 with the exception's text |
| ChatRoutes.AudioRejectedBeforeSave | app/chat_routes.py:243-248 | audio is refused by the route although save_media would accept it |
| ChatRoutes.OversizedUpload | app/chat_routes.py:251-267 | an oversized image or video fails with the size message wrapped twice |
| ChatRoutes.UploadMedia | app/chat_routes.py:233-267 | the reply is the upload result above; only a success is logged, as "Uploaded {type}" |
| Chats.AtMostOneChatPerPair | app/chat_routes.py:78-115 | under the chat invariant two distinct users share at most one chat |
| Chats.ExistingChat | app/chat_routes.py:78-91 | a found chat is one of the caller's chats that the recipient is in; None means no chat of the caller has the recipient |
| Chats.ExistingChatFindsThePair | app/chat_routes.py:78-91 | for two distinct users in a chat, the lookup returns that chat |
| Chats.SelfLookup | app/chat_routes.py:84-91 | looking for a chat with oneself finds one exactly when the caller is in any chat |
| Chats.NewChatKeepsValid | app/chat_routes.py:105-115 | adding a fresh chat with two participant rows when no chat holds the pair keeps the chat invariant |
| Chats.NewChatFoundFromEitherSide | app/chat_routes.py:78-115 | after a new chat is created, the lookup finds it from either side |
| ChatRoutes.FindExistingChat | app/chat_routes.py:78-91 | the loop over the caller's participant rows computes the existing-chat lookup |
| ChatRoutes.CreateChat | app/chat_routes.py:67-130 | an unknown username is refused and nothing changes; an existing chat is returned unchanged; otherwise one chat with a fresh id and exactly the caller's and recipient's rows is added and logged |
| ChatRoutes.OpenFromBothSides | app/chat_routes.py:67-130 | A opening a chat with B and then B with A yields the same chat id |
| Chats.OthersIn | app/chat_routes.py:28-31 | exactly the users other than the caller with a row in the chat |
| Chats.ChatMessages | app/chat_routes.py:146-148 | exactly the messages of the chat, each as often as it occurs in the table, so its length is the chat's message count |
| Chats.CountUnread | app/chat_routes.py:45-49 | the count is positive exactly when some message in the chat from someone else is unread |
| Chats.LastMessage | app/chat_routes.py:40-42 | None exactly when the chat has no messages; otherwise a message of the chat with the greatest timestamp |
| Chats.ChatListCoverage | app/chat_routes.py:19-37 | the chat list holds a summary for a chat exactly when the caller and some other user both have a row in it |
| Chats.ChatListIdsUpTo | app/chat_routes.py:24-59 | after n participant rows, the listed chats are those of the caller's rows among them that have another user |
| Chats.ChatListDistinct | app/chat_routes.py:24-59 | under the chat invariant no chat is listed twice |
| Chats.SummaryCorrect | app/chat_routes.py:36-58 | a summary names another participant, has `unread` exactly when an incoming message is unread, and carries the chat's latest message or none |
| Chats.ListedRow | app/chat_routes.py:24-59 | every summary in the list comes from one of the caller's participant rows whose chat has another member, and is that chat's summary |
| Chats.ChatListContents | app/chat_routes.py:24-59 | every summary in the list is correct in the sense of `SummaryCorrect`, for some other member of its chat |
| ChatRoutes.ListChatSummaries | app/chat_routes.py:19-59 | the loop builds the chat list, without repeats, covering exactly the shared chats |
| ChatRoutes.GetChats | app/chat_routes.py:16-65 | the reply is `Ok` with the chat list, and the read is logged with its count |
| Chats.MarkReadEffect | app/chat_routes.py:150-160 | afterwards every incoming message of the chat is read; other chats, the caller's own messages and all other fields are unchanged; no flag goes from true to false |
| Chats.MarkReadIdempotent | app/chat_routes.py:150-160 | marking twice is marking once |
| Chats.NoUnreadAfterFetch | app/chat_routes.py:150-160 | after the fetch the chat has nothing unread for the caller |
| Chats.ChatHistory | app/chat_routes.py:146-148 | the chat's messages in non-decreasing timestamp order, a permutation of them |
| Chats.ChatHistoryContents | app/chat_routes.py:146-148 | a message is in the history exactly when it belongs to the chat |
| ChatRoutes.MarkChatRead | app/chat_routes.py:157-160 | the loop over unread messages performs the read-marking above |
| ChatRoutes.MarkReadKeepsMessagesValid | app/chat_routes.py:157-160 | read-marking keeps message keys and senders valid |
| ChatRoutes.BuildMessageList | app/chat_routes.py:166-180 | each response item is the view of the message at the same position |
| ChatRoutes.GetMessages | app/chat_routes.py:132-182 | a non-participant is refused and nothing changes; otherwise the chat's incoming messages are marked read, the read is logged with the count, and the chat's history is returned |
| ChatRoutes.SendMessage | app/chat_routes.py:184-231 | a non-participant is refused and nothing is added; otherwise exactly one unread message from the caller, timestamped now, with the request's content, type and media URL is appended and logged |
| MainApp.NewUser | app/main.py:43-53 | the inserted row has a key above every key, the requested username and email, and a hash that verifies the password |
| MainApp.NewUserKeepsUnique | app/main.py:37-41 | inserting a user whose username and email are untaken keeps users unique |
| MainApp.RegisteredUserAuthenticates | app/main.py:34-68 | a freshly registered user authenticates with the registered password by their username or email |
| MainApp.RegisterUser | app/main.py:34-68 | behind the static gate, a username or email in use is refused with the table unchanged; otherwise the user is inserted, the registration logged and the password-free projection returned |
| MainApp.LoginSubjectIsIdentifier | app/main.py:78-84 | the subject put in the token is the identifier the user logged in with |
| MainApp.LoginTokenResolves | app/main.py:78-104 | the issued token resolves through get_current_user to the same user until it expires, and to 401 afterwards |
| MainApp.LoginForAccessToken | app/main.py:71-104 | behind the static gate, a blank identifier or password is answered with 422 and the `LoginRequest` validator's message and not logged; a failed authentication is refused and not logged; otherwise a bearer token for the subject and the profile are returned and the login logged |
| MainApp.Filter | app/main.py:136-144 | exactly the users whose name contains the name (ignoring case) and whose key equals the id, each only when given |
| MainApp.Search | app/main.py:129-147 | refused exactly when neither a nonempty name nor a nonzero id is given; otherwise the page at `skip` of some ordering of the matching users, so exactly `min(limit, matches - skip)` of them (none past the end), all of them when the page starts at 0 and is large enough |
| MainApp.FilterById | app/main.py:142-144 | with unique keys, filtering by a key gives the one user with it, or nobody |
| MainApp.SearchByIdFindsUser | app/main.py:119-155 | searching for an existing user's key alone returns exactly that user |
| MainApp.SearchUsers | app/main.py:119-155 | the reply is the search's page projected to responses, and the search is logged with its criteria and count; a refusal is not logged |
| MainApp.NameFragmentMatches | app/main.py:136-137 | a user whose name holds the searched name in any letter case matches the name filter |
| MainApp.SearchUsersPublic | app/main.py:158-187 | behind the static gate, the reply is Ok exactly when a criterion is given and is then the same search as search_users projected to responses: the same refusal rule, at most `limit` results, each the projection of a matching user, and every matching user when the page starts at 0 and is large enough |
| MainApp.GetReportsByUserId | app/main.py:223-256 | a non-admin asking for another user's reports is refused, as is an unknown user, neither logged; otherwise the listing is returned and logged |
| MainApp.FindEntry | app/main.py:339-342 | a found entry has the key and belongs to the caller; None means no entry of the caller has that key |
| MainApp.OthersEntryNotFound | app/main.py:339-344 | another user's entry is not found by its key |
| MainApp.ReadDataEntry | app/main.py:333-352 | the caller's entry is returned and the read logged; otherwise "not found" and nothing written |
| MainApp.Overwrite | app/main.py:368-370 | after the set fields are assigned, each set field has its new value and every other column keeps its value |
| MainApp.ApplyPatch | app/main.py:368-370 | the `setattr` loop computes that overwrite |
| MainApp.UpdateDataEntry | app/main.py:355-382 | another user's or a missing entry is "not found" and unchanged; otherwise only the set fields change and the update is logged; an explicit null fails the commit with 500 and nothing persisted |
| MainApp.DeleteDataEntry | app/main.py:385-406 | another user's or a missing entry is "not found" and kept; otherwise exactly that entry is removed and the deletion logged |
| MainApp.ProfileError | app/main.py:419-439 | the update passes exactly when the current password verifies (if a new one is given), a changed email is held by nobody and a changed username is held by nobody; otherwise the error is that of the first failing check in this order |
| MainApp.UpdatedProfile | app/main.py:419-450 | the key and role are kept; a new password is hashed so that it verifies; email and username change only when given and different; name, disease, date and place of birth take the given value and are unchanged when it is None |
| MainApp.ProfileUpdateKeepsUnique | app/main.py:426-439 | an update that passes the checks keeps users unique |
| MainApp.PasswordChangeNeedsCurrent | app/main.py:419-425 | the hash changes only when a new password is given and the current one verifies |
| MainApp.EditProfile | app/main.py:419-450 | the step-by-step checks and assignments fail with the first failing check and otherwise give the updated row |
| MainApp.UpdateUserProfile | app/main.py:409-464 | a failed check raises 400 with nothing persisted; otherwise the caller's row alone is replaced, the update is logged under the new email, and the new profile returned |
| MainApp.ReadActivityLogs | app/main.py:477-496 | the reply is `Ok` with the page of the caller's entries, newest first, as they were before the call; the entry recording the read is appended afterwards and is not among them |
| Sorting.SortBy | app/main.py:486 | the result is ordered by the key and is a permutation of the input |
| Sorting.PageOfSorted | app/main.py:487 | a page of an ordered sequence is ordered and holds only its rows |
| Sorting.RowsOf | app/main.py:484-485 | `filter(user_id == id)`: exactly the rows of that owner, each as often as in the table |
| Sorting.SortedPage | app/main.py:484-487 | `order_by(...).offset(skip).limit(limit)`: exactly as many rows as the page has room for among all rows, ordered by the key, and the page at `skip` of an ordering of all the rows; the first page of enough size holds all of them |
| Sorting.FirstPageHoldsAllOwned | app/main.py:243-247 | a first page at least as long as the table holds every row of the owner, and nothing else |
| Common.Page | app/main.py:144 | `offset(skip).limit(limit)`: the rows from position skip on, at most limit of them |

## Left out

- Cryptography is symbolic. bcrypt (passlib) is an ideal hash whose salt is a parameter. JWT signing and decoding (python-jose) record the claims, key and algorithm.
- No token text equals the static secret by accident. A signed token never opens the static gate.
- The database engine is not modelled: sessions, commit, refresh, rollback and SQL. Handlers are sequential.
- The `IntegrityError` branches of `register_user` and `update_user_profile` are not modelled. They can only fire under a concurrent insert, because each handler checks uniqueness itself first.
- The create-or-get race of `create_chat` is out of the sequential model.
- `update_user_profile`'s 404 is left out. The caller's row always exists, because get_current_user has just loaded it.
- FastAPI routing, dependency injection, response-model serialisation, the static mount and `print`/traceback output are not modelled.
- Pydantic's type checks of request fields are not modelled. This covers `EmailStr` validation and the int/str types of data-entry columns; a patch value is any `FieldValue`.
- SQL `ilike` is an ASCII case-insensitive substring test. `%` and `_` inside the name are ordinary characters here, and non-ASCII case folding is not modelled.
- `skip` and `limit` are natural numbers. A negative offset or limit, which the database would reject or treat as unlimited, is not modelled.
- SQL leaves the order of rows with equal sort keys open. The model fixes one order: table order among equal keys, so `Chats.LastMessage` picks the first inserted of equally new messages.
- Dates, datetimes and timestamps are integers. `datetime.utcnow()` is read once per request as `now`, so a message and its log entry share the same time.
- Disk I/O in media uploads is not modelled: the upload directory, the file write, and seek/tell. The file size is a parameter, and the uuid is a fresh-id parameter.
- `get_messages` builds its response from the rows after the read flags are set, as the ORM objects are shared. The model returns the updated rows too.
- Asking `create_chat` for a chat with one's own username returns one's first chat, if any. This is the behaviour of the code as written (`Chats.SelfLookup`).
- These endpoints are not modelled: `read_users_me`, `validate_token`, `get_all_users` and its public variant, report create/list and the public report listing, data-entry create and list, `create_activity_log`, and the public log listing. They are plain record copies or queries without rules of their own.
- MainApp.Search: the contract states the page's size and that it is the page at `skip` of some ordering of the matches. It does not fix that ordering, because the source's query has no ORDER BY and so leaves the order of the rows, and with it which matches a later page holds, to the database.
- MainApp.SearchUsersPublic: like its source, it is not logged. Its Ok reply is stated to be `MainApp.Search` projected to responses, so it shares that member's open row order.
- Jose.Decode: python-jose's `nbf` check (a token not yet valid) and `aud` check (a token carrying an audience when none is expected) are not modelled. Tokens this service issues carry neither claim.
- `str.strip()` removes ASCII whitespace only in this model (`Text.IsSpace`). Python also strips Unicode whitespace such as U+00A0, so a name made only of such characters passes the login validators here but not in Python.
- Queries without ORDER BY return rows in table order in this model. This covers the search page, the order of `get_chats`' list and the scan of `create_chat`. The database is free to return them in another order.
- MainApp.Overwrite accepts any key in a patch. Pydantic's `DataEntryUpdate` would drop keys outside the eleven data-entry columns, so such keys never reach the `setattr` loop in the source.
- Crypto.VerifyOnlyOwnPassword: the ideal digest tells every two passwords apart. passlib's bcrypt truncates a secret to its first 72 bytes, so two passwords that agree on those bytes verify against each other's hash in the source but not here.
- MainApp.LoginForAccessToken: a 422 carries the message of the first failing validator, the identifier's before the password's. Pydantic reports every failing field in a list of errors.
