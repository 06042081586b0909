# Task manager API: accounts, sessions and owner-scoped tasks in Dafny

This project models the core of the task-manager REST API:

- the User schema with its validators, setters and hooks (`src/models/user.js`);
- the user router: registration, login, logout, logout-all, profile read/update/delete, avatar upload/delete/fetch (`src/routers/user.js`);
- the task router: create, list, fetch, update and delete, all scoped to the caller (`src/routers/task.js`).

The database becomes a class, `Store.Db`. It holds two maps, `users: map<UserId, User>` and `tasks: map<TaskId, Task>`. The write path of the User schema is made explicit:

- `SaveUser` validates the modified paths, checks the unique email index, runs the pre-save hook (re-hash the password only when that path was modified) and writes.
- `RemoveUser` runs the pre-remove cascade before deleting the user.
- `GenerateAuthToken` appends one token and saves.

Every handler is a module-level method that takes the store as a parameter `db: Db`. Each states its outcome and the whole new state of both maps. The class invariant `Valid()` says two things:

- emails are unique across users;
- no task points at a missing owner.

A Mongoose document in memory is a value, `Doc`: the user's fields, the set of modified paths, and a cast-failure flag. Assigning a request body goes through each path's setters (trim, or trim and lower-case for email), as `user[key] = value` does, up to the differences listed under Left out (casting, ASCII-only lower-casing, and the non-profile paths). Assigning a value equal to the current one does not mark the path as modified.

The modules, leaf first:

| file | module | contents |
|---|---|---|
| wrappers.dfy | `Wrappers` | `Option`, `Result`, `Outcome` |
| strings.dfy | `Strings` | JavaScript `trim`, `toLowerCase`, `includes`, `split` on strings |
| json.dfy | `Json` | request bodies as ordered key/value pairs, `Object.keys`, `every`, object spread |
| user_model.dfy | `UserModel` | the User entity, its validators, setters, hooks, `toJSON` and `findByCredentials` |
| task_model.dfy | `TaskModel` | the Task entity as the task router uses it |
| store.dfy | `Store` | the `Db` class |
| user_router.dfy | `UserRouter` | the user handlers |
| task_router.dfy | `TaskRouter` | the task handlers |

External code becomes parameters:

- bcrypt is the `Db.hash` function. `Matches` compares a stored hash with `hash(plain)`.
- `validator.isEmail` is the `Db.isEmail` predicate.
- JWT signing: tokens are opaque strings passed to the handlers.
- sharp's resize-to-PNG is a `toPng` function parameter that yields no image when sharp cannot decode the payload.
- New database ids are method parameters.

The auth middleware is not part of this model. Protected handlers require that the caller exists. Logout also requires that the presented token is live.

Three behaviours of the code that a reader might not expect, each modelled as written:

- **Avatar extensions.** The filename regular expression (src/routers/user.js:119) lists only all-lower and all-upper extensions, so `.Jpg` is refused (`MixedCaseRejected`).
- **Login errors.** `findByCredentials` throws `Unable to login!` for an unknown email (src/models/user.js:96) and `Unable to login! Wrong password.` for a wrong password (src/models/user.js:101). The login handler sends either error as `res.status(400).send(e)` (src/routers/user.js:37), and an `Error` serialises to `{}`, so the client receives the same empty body for both. The model keeps the two thrown errors apart (`NoSuchAccount`, `WrongPassword`); HTTP bodies are not modelled.
- **The `completed` filter.** `if(req.query.completed)` (src/routers/task.js:32) tests the parameter's truthiness, so an empty `?completed=` sets no filter (`CompletedFilter`).

## Model

| member | source | states |
|---|---|---|
| Strings.Trim | src/models/user.js:8-12 | The trimmed text is no longer than the input and has no whitespace at either end. |
| Strings.TrimIsSlice | src/models/user.js:8-12 | The trimmed text is one contiguous slice of the input, and every character before and after that slice is whitespace. |
| Strings.TrimIdempotent | src/models/user.js:34-37 | Trimming twice is trimming once, so re-assigning a trimmed field does not change it. |
| Strings.ToLower | src/models/user.js:40 | Lower-casing keeps the length and maps each character on its own. |
| Strings.ToLowerIdempotent | src/models/user.js:18 | Lower-casing twice is lower-casing once. |
| Strings.LowerKeepsOuterCharacters | src/models/user.js:17-18 | Lower-casing a trimmed text leaves it trimmed: no end character becomes whitespace. |
| Strings.ToLowerSlice | src/models/user.js:40 | Lower-casing commutes with taking a slice. |
| Strings.Includes | src/models/user.js:40 | `includes` is true exactly when the substring occurs at some position. |
| Strings.Split | src/routers/task.js:37 | `split` yields at least one part, and no part contains the separator. |
| Strings.JoinSplit | src/routers/task.js:37 | Joining the parts of a split with the separator gives back the text. |
| Strings.SplitJoin | src/routers/task.js:37 | Splitting a join of separator-free parts gives back the parts. |
| Json.Keys | src/routers/user.js:78 | `Object.keys` lists the body's keys in insertion order (integer-like keys are not ordered first; see Left out). |
| Json.Lookup | src/routers/user.js:91 | `body[key]` is absent exactly when the key is not a key of the body. When present, the pair is in the body. |
| Json.Every | src/routers/user.js:80-82 | The allow-list test holds exactly when every key is in the allowed list. |
| Json.Override | src/routers/task.js:10-13 | `{...body, key: v}` maps `key` to `v` and every other key as the body does. |
| Strings.Utf16Length | src/models/user.js:41 | `value.length` counts UTF-16 code units: between the number of characters and twice it, and equal to it exactly when no character lies outside the Basic Multilingual Plane. |
| Strings.Utf16LengthAppend | src/models/user.js:41 | Appending a character adds one code unit, or two for a character outside the Basic Multilingual Plane; with the empty text at 0 this fixes the length of every text. |
| UserModel.CheckPassword | src/models/user.js:39-46 | Too short exactly when the length in UTF-16 code units is under 6. Forbidden-word error exactly when the length is at least 6 and the lower-cased value contains "password". Accepted exactly when neither holds. |
| UserModel.AstralPasswordLongEnough | src/models/user.js:41 | Three emoji (six UTF-16 code units) pass the length rule and the password check. |
| UserModel.ForbiddenWordInAnyCase | src/models/user.js:40-44 | A value holding "password" in any letter case at any position is refused with the forbidden-word error. |
| UserModel.CheckAge | src/models/user.js:28-32 | An age passes exactly when it is not negative. |
| UserModel.Validate | src/models/user.js:7-47 | A document passes exactly when there is no cast failure and every modified path satisfies its rule: name required; email required and syntactically valid; age non-negative; password required, long enough and free of the forbidden word. |
| UserModel.SaveCheck | src/models/user.js:13-16 | A save passes exactly when the document validates and no other user holds its email (the unique index). |
| UserModel.NormalizeEmail | src/models/user.js:17-18 | The email setter: trim, then lower-case. Its meaning is stated by `NormalizeEmailIdempotent`. |
| UserModel.NormalizeEmailIdempotent | src/models/user.js:17-18 | A normalised email normalises to itself, so a stored email is found by a lookup that normalises the same text. |
| UserModel.Assign | src/models/user.js:7-47 | `doc[key] = v` through the path's setter (src/models/user.js:11, 17-18, 37). Its meaning is stated, with `AssignAll`'s, by `AssignAllIsProfileAfter`. |
| UserModel.AssignAll | src/routers/user.js:90-92 | The `forEach` assignment of every body key, in key order. Its meaning is stated by `AssignAllIsProfileAfter`. |
| UserModel.SetPath | src/models/user.js:112 | Assigning a path marks it modified only when the value changes. |
| UserModel.AssignAllIsProfileAfter | src/routers/user.js:90-92 | Assigning a body key by key sets each supplied profile field to its supplied value, after its setter. It leaves every other field, tokens and avatar included, unchanged. It marks modified exactly the paths whose value changed, and records any value of the wrong kind as a cast failure. |
| UserModel.PreSave | src/models/user.js:108-117 | The stored password is `hash(plaintext)` exactly when the password path was modified; otherwise it is stored as it was. No other field changes. |
| UserModel.TokenSaveKeepsPassword | src/models/user.js:81-89 | Saving after a token append stores the user with that one token added at the end. The password path is not modified, so the hash is not hashed again. |
| UserModel.ToObject | src/models/user.js:71 | `toObject()`: the id and every stored path, the avatar only when present. Its meaning is stated by `ToJSON` and `PublicViewOfUser`. |
| UserModel.AppendToken | src/models/user.js:85 | `user.tokens = user.tokens.concat({token})` on the loaded user. Its meaning is stated by `TokenSaveKeepsPassword`. |
| UserModel.Matches | src/models/user.js:99 | `bcrypt.compare`: the stored hash is the hash of the plaintext. Its meaning is stated by the credential checks `FindByCredentialsAsWritten` and `FindByCredentials`. |
| UserModel.ToJSON | src/models/user.js:69-78 | The projection has no password, tokens or avatar key, keeps every other key with its value, and adds no key. |
| UserModel.PublicViewOfUser | src/models/user.js:69-78 | A user's client view is exactly its id, name, email and age. The version key `__v` and the timestamps are not modelled (see Left out). |
| UserModel.FindByCredentialsAsWritten | src/models/user.js:92-105 | No-such-account exactly when no user has the normalised email. Wrong-password exactly when that user's stored hash does not match the password as given. Otherwise the result is that user. |
| UserModel.FindByCredentials | src/models/user.js:92-105 | The same three outcomes, with the password trimmed as the schema setter trims it before hashing. |
| UserModel.Registered | src/routers/user.js:12-17 | `new User(req.body)`, save, then `generateAuthToken`. Its meaning is stated by `RegisteredAge` and `RegisteredUserCanLogIn`. |
| UserModel.RegisteredAge | src/models/user.js:25-33 | Registration without an age stores 0. With a numeric age it stores that age. |
| UserModel.RegisteredUserCanLogIn | src/models/user.js:92-105 | A user stored by registration logs in with the email and password of the registration body. |
| UserModel.PaddedPasswordRefused | src/models/user.js:99 | As written, a password registered with outer whitespace, whose hash differs from its trimmed form's, is refused when typed exactly as registered, while its trimmed text logs in. |
| UserModel.LeadingSpaceExample | src/models/user.js:37 | Concrete case: registering with password " secret1" gives wrong-password under the check as written, and success under the corrected check. |
| TaskModel.AssignTask | src/routers/task.js:91 | `task[key] = v` through the task paths, the description trimmed. Its meaning is stated by `AssignAllTaskIsTaskAfter`. |
| TaskModel.AssignAllTask | src/routers/task.js:90-92 | The `forEach` assignment of every body key, in key order. Its meaning is stated by `AssignAllTaskIsTaskAfter`. |
| TaskModel.AssignAllTaskIsTaskAfter | src/routers/task.js:90-92 | Assigning a body key by key sets each supplied task field to its supplied value (description trimmed), keeps the rest, and records any value of the wrong kind as a cast failure. |
| TaskModel.ValidateTask | src/routers/task.js:15 | A task document saves exactly when there is no cast failure, the description is non-empty and an owner is set. The stored task is built from the document's fields. |
| TaskModel.PurgeOwner | src/models/user.js:120-124 | `deleteMany({ owner })` keeps exactly the tasks of other owners, each unchanged. |
| TaskModel.FindOwned | src/routers/task.js:62 | `findOne({ _id, owner })` finds a task exactly when the id exists and its owner is the caller, and then yields that task. |
| TaskModel.ForeignTaskLooksMissing | src/routers/task.js:62-65 | Another user's task gives the same not-found result as a nonexistent id. |
| Store.IsLive | src/routers/user.js:43-47 | A token is live for a user when the user exists and holds it, as the auth middleware (not part of this model) looks it up and logout removes it. Its meaning is stated by `Logout` and `LogoutAll`. |
| Store.UnvalidatedSavePasses | src/models/user.js:86 | A save that changes only the token list or the avatar always passes validation and the unique index. |
| Store.Db.SaveUser | src/models/user.js:108-117 | The outcome is the save check on the old users. On success the pre-save user is written under its id; on failure nothing changes. Tasks are untouched and `Valid()` is kept. |
| Store.Db.GenerateAuthToken | src/models/user.js:81-89 | Exactly one token is appended at the end of the user's list. Nothing else changes, and the token is returned. |
| Store.Db.SaveTokens | src/routers/user.js:46-49 | The user's token list is replaced. Every other field and every other user is unchanged. |
| Store.Db.SaveAvatar | src/routers/user.js:128-129 | The user's avatar is replaced. Every other field and every other user is unchanged. |
| Store.Db.SaveTask | src/routers/task.js:15 | The outcome is the task validation. On success the task is written under its id; on failure nothing changes. |
| Store.Db.DeleteTask | src/routers/task.js:104 | Exactly that task is removed. |
| Store.Db.RemoveUser | src/models/user.js:120-124 | The user is removed and the tasks become `PurgeOwner` of the old tasks, so no orphan task remains. |
| UserRouter.RemoveToken | src/routers/user.js:44-46 | The logout filter on the token list. Its meaning is stated by `RemoveTokenCounts`, `RemoveTokenConcat`, `RemoveAbsentToken` and `RemoveTokenIdempotent`. |
| UserRouter.RemoveTokenCounts | src/routers/user.js:46-48 | The filtered list holds no copy of the presented token and every other entry as often as before. |
| UserRouter.RemoveTokenConcat | src/routers/user.js:46-48 | The filter distributes over concatenation, so surviving entries keep their order. |
| UserRouter.RemoveAbsentToken | src/routers/user.js:46-48 | Filtering out a token that is absent leaves the list unchanged. |
| UserRouter.RemoveTokenIdempotent | src/routers/user.js:46-48 | Logging out twice with one token is the same as logging out once. |
| UserRouter.LogoutUndoesLogin | src/routers/user.js:46-48 | Filtering out the token a login has just appended gives the earlier list, filtered. |
| UserRouter.CreateUser | src/routers/user.js:11-21 | A failed save check returns that error and stores nothing. Otherwise the registered user (its profile fields from the body; `tokens`, `avatar` and `_id` keys ignored, see Left out), with exactly one token, is stored under the new id, and its public view and the token are returned. |
| UserRouter.Login | src/routers/user.js:31-38 | Uses the corrected credential check `FindByCredentials` (see Findings). A credential failure returns that error and changes nothing. Otherwise exactly one token is appended to the matched user, and the view and token are returned. |
| UserRouter.Logout | src/routers/user.js:43-50 | The caller's token list becomes the filtered list. The presented token is no longer live, and every other token is live exactly as before. |
| UserRouter.LogoutAll | src/routers/user.js:58-63 | The caller's token list becomes empty, so no token of the caller is live. |
| UserRouter.ReadProfile | src/routers/user.js:71-73 | Returns the caller's public view, with no password, tokens or avatar. |
| UserRouter.ApplyProfileUpdates | src/routers/user.js:90-92 | The assignment loop yields the document of assigning the whole body. |
| UserRouter.UpdateProfile | src/routers/user.js:77-98 | A key outside {name, age, email, password} is rejected with the user unchanged. Otherwise a failed save returns its error and nothing changes. A passing save stores the pre-save document and returns its view. |
| UserRouter.AcceptedProfileUpdate | src/routers/user.js:88-94 | After an accepted update each supplied field holds its supplied value. A changed password is stored as its hash, an unchanged one as before. Tokens and avatar are unchanged. |
| UserRouter.DeleteProfile | src/routers/user.js:102-108 | The caller is removed, together with exactly the tasks they own. Every other task is unchanged, and the removed user's view is returned. |
| UserRouter.Extension | src/routers/user.js:119 | The extension is dot-free and the name ends in a dot followed by it. There is none only when the name has no dot. |
| UserRouter.ExtensionOfSuffix | src/routers/user.js:119 | A name ending in a dot and a dot-free text has exactly that text as its extension. |
| UserRouter.AvatarFileAccepted | src/routers/user.js:118-123 | The filter accepts a name exactly when its extension is one of jpg, JPG, jpeg, JPEG, png, PNG. |
| UserRouter.MixedCaseRejected | src/routers/user.js:119 | A `.Jpg` name is refused. |
| UserRouter.UploadAvatar | src/routers/user.js:114-133 | A request with no file part stores nothing. A name that fails the filter is refused, then a file over 1000000 bytes, then a payload sharp cannot decode; each failure leaves the users unchanged. Otherwise the normalised image becomes the caller's avatar and nothing else changes. |
| UserRouter.DeleteAvatar | src/routers/user.js:135-139 | The caller is left with no avatar and nothing else changes. |
| UserRouter.GetAvatar | src/routers/user.js:141-150 | The image is returned exactly when the user exists and has an avatar. Otherwise the result is the not-found message. |
| TaskRouter.CompletedFilter | src/routers/task.js:32-34 | No filter exactly when the parameter is absent or empty. Otherwise the filter selects completed tasks exactly when the parameter is "true". |
| TaskRouter.SortFrom | src/routers/task.js:36-39 | No sort exactly when `sortBy` is absent or empty. Otherwise the field is the text up to the first colon, and the order is -1 exactly when `desc` is the whole second segment, else 1. |
| TaskRouter.SplitMeaning | src/routers/task.js:37-38 | The first two parts of the split have the meaning `SortFrom` states. |
| TaskRouter.SplitField | src/routers/task.js:37-38 | The first part is either the whole text or the text before a colon. |
| TaskRouter.SplitDescending | src/routers/task.js:38 | A second part `desc` means the text is the field and `:desc`, alone or followed by a colon. |
| TaskRouter.DescendingSplits | src/routers/task.js:38 | Conversely, such a text splits with `desc` as its second part. |
| TaskRouter.FieldIsFirstPart | src/routers/task.js:37-38 | A colon-free field that the text equals, or starts with before a colon, is the first part of the split. |
| TaskRouter.SortMeansUnique | src/routers/task.js:36-39 | The stated meaning determines the field and the order, so `SortFrom` is its only reading. |
| TaskRouter.AscendingWithoutColon | src/routers/task.js:37-38 | A `sortBy` without a colon sorts ascending on the whole text. |
| TaskRouter.CreatedTask | src/routers/task.js:10-15 | A created task's description and flag come from the body, and its owner is the caller even when the body names another owner. |
| TaskRouter.CreateTask | src/routers/task.js:8-20 | The task is stored exactly when the body has no wrongly typed field and a non-empty trimmed description. It is then stored as that task, owned by the caller. Users are untouched. |
| TaskRouter.ListTasks | src/routers/task.js:26-51 | The listed tasks are exactly the caller's tasks that pass the `completed` filter, each unchanged. The sort is the one `SortFrom` states. |
| TaskRouter.GetTask | src/routers/task.js:59-69 | A task is returned exactly when the id exists and the caller owns it. Otherwise the result is not-found. |
| TaskRouter.ApplyTaskUpdates | src/routers/task.js:90-92 | The assignment loop yields the document of assigning the whole body. |
| TaskRouter.AllowedUpdatesKeepOwner | src/routers/task.js:76-92 | Assigning only allow-listed keys never changes a task's owner. |
| TaskRouter.UpdateTask | src/routers/task.js:74-97 | A key outside {description, completed} is rejected. Another user's or a nonexistent task gives not-found. Otherwise the outcome is exactly the validation of the caller's task with the body assigned. Any failure leaves the store unchanged. On success the validated task is written under its id, still owned by the caller. |
| TaskRouter.AcceptedTaskUpdate | src/routers/task.js:85-94 | An allowed update is saved exactly when no field is wrongly typed and the description stays non-empty. It then stores the supplied fields and keeps the rest, owner included. |
| TaskRouter.DeleteTask | src/routers/task.js:102-111 | Deletion succeeds exactly when the id exists and the caller owns it. It then removes only that task and returns it. Otherwise the result is not-found and nothing changes. |

## Left out

- bcrypt's salt and cost factor: `hash` is a fixed function of the plaintext, and a match is `stored == hash(plain)`.
- JWT signing and verification: tokens are opaque strings.
- The auth middleware is not part of this model. It is stated as preconditions: the caller exists, and for logout the presented token is live.
- `validator.isEmail` is an uninterpreted predicate, `Db.isEmail`.
- Persistence, `async`/`await`, and Mongoose's `populate`/`execPopulate`:
  - the database's ordering of listed tasks by the sort object;
  - `limit`/`skip` pagination through `parseInt`;
  - timestamps, and the version key `__v` that `toObject` also carries, so `ToJSON` and the public view have neither.
  - `ListTasks` returns the filtered set and the parsed sort object; it does not return an ordered page.
- sharp and multer: resizing to 250×250 PNG is the `toPng` parameter, which decides which payloads decode. Multer's stream handling is reduced to `req.file` as an optional name and byte sequence.
- UserRouter.UploadAvatar: with no file part, or a payload sharp rejects, the source's `await` at src/routers/user.js:127 throws inside the async handler. Under Express 4 that rejection reaches neither the error handler at src/routers/user.js:131-133 nor the client, so no response is sent. The model returns `NoFile` or `UndecodableImage`, with nothing stored in either case, as in the source.
- The welcome and cancellation emails (src/emails/account.js): fire-and-forget calls with no effect on the state.
- HTTP status codes and response bodies, including the success messages.
- Concurrent requests and lost updates on a token list.
- Mongoose's cross-type casting. A value of the wrong JSON kind for a schema path (a number for `name`, text for `age`) is modelled as a cast failure. The source would coerce some of them, for example `"25"` to 25.
- Non-integer ages: `age` is an `int`.
- JSON `null`, nested objects and arrays other than a token list: a body value is text, a number, a boolean, an id, a text list or bytes, so bodies such as `{"completed": null}` or `{"age": null}`, which Mongoose would cast or clear, cannot be expressed.
- Malformed ObjectIds in route parameters: ids are natural numbers.
- Strings.ToLower: lower-cases ASCII letters only; non-ASCII characters are kept as they are. For the password rule this is exact: the only non-ASCII characters whose lower case is an ASCII letter (U+0130, U+212A) cannot form "password". For emails it is not: a non-ASCII capital in an email ("É") is not folded, so two emails that differ only in such a letter are distinct here, for the unique index and for login, whereas the source's lowercase setter makes them equal.
- UserRouter.CreateUser: `new User(req.body)` (src/routers/user.js:12) assigns every schema path the body names, not only the profile. In the source a registration body can preset `tokens` (src/models/user.js:48-53), which the login token is then appended to, can store an `avatar` (src/models/user.js:54-56) that never went through the upload's filter, size limit or PNG conversion (src/routers/user.js:114-130), and can choose the `_id`. The model ignores these three keys at registration: the new user always starts with no tokens and no avatar, ends with exactly the one login token, and is stored under the `id` parameter.
- A client-supplied `_id` in a task-creation body: the spread at src/routers/task.js:10-13 keeps it, so Mongoose would store the task under that id. Here the new task's id is always the `id` parameter.
- Json.Keys: `Object.keys` lists integer-like keys ("0", "1", ...) first, in ascending order, before the other keys in insertion order. The model keeps insertion order for every key. No allow-listed key is integer-like, so any body with such a key is rejected by the allow-list test whatever the order, and assignment order never involves one.
- UserRouter.Login: uses the corrected `UserModel.FindByCredentials`, which compares the trimmed password, rather than the check as written (src/models/user.js:99, called at src/routers/user.js:33). A password registered with outer whitespace logs in here, whereas the source refuses it; `UserModel.FindByCredentialsAsWritten` and the Findings table record the difference.
- UserModel.Validate: validates the modified paths only. A Mongoose save also validates every `required` path, modified or not (name, email and password: src/models/user.js:10, 16, 36), and it runs all of that path's validators: `isEmail` on the stored email, and the length and "password" test on the stored hash. The model skips these untouched paths on the assumption that a stored user passes them again: its name and email passed the same validators when they were written, and its stored password is a 60-character bcrypt hash, long enough and, in practice, never containing "password". The model's `hash` is an unconstrained function, so this assumption is not derived from it.
- TaskModel.ValidateTask: reports only the first failing rule. Mongoose collects every failing path into one error.
- Task schema file: `src/models/task.js` is not part of this model. The Task rules used are assumptions about that file: `description` is a required, trimmed string; `completed` is a boolean defaulting to false; `owner` is a required reference to a user.

## Findings

| source | as written | input that shows it | evidently intended | confidence | as-written member | corrected member |
|---|---|---|---|---|---|---|
| src/models/user.js:37 | The password is trimmed by the schema setter before it is hashed, but `findByCredentials` compares the untrimmed password against that hash. | Register with password " secret1" (leading space); login with " secret1" fails with wrong-password. | Compare the same trimmed text that was hashed, so a registered password always logs in. | not executed | UserModel.FindByCredentialsAsWritten | UserModel.FindByCredentials |
