# Admin user handlers of a temporary-mail worker, modelled in Dafny

The worker's admin API edits the global user settings and manages user
accounts: it creates users, deletes them together with their address
bindings, resets passwords and assigns roles. Each handler checks a few
request fields in a fixed order, runs one or two statements against a SQL
store and maps the outcome to an HTTP response. This project models that
decision logic and its effect on the store's tables:

- `saveSetting`: the four ordered checks (KV binding, sender present, sender
  domain configured, non-negative address limit), with the sender's domain
  taken exactly as JavaScript's `sender.split("@")[1]` would, and the settings
  blob written only when every check passes.
- `createUser`: the missing-field guard, the password policy, the insert, and
  the classification of errors (a message containing `UNIQUE` gives 400
  "User already exists", any other gives 500).
- `deleteUser`: two independent deletes (the user row, then the user's
  address bindings), 500 on a reported failure of either, no rollback.
- `resetPassword`: id guard, password policy, update.
- `updateUserRoles`: an empty role clears the user's entry, an unknown role
  is refused without a write, a valid role is upserted.

Files:

- `wrappers.dfy` (`Wrappers`): `Option`, used for JavaScript's `undefined`.
- `strings.dfy` (`Strings`): `split` on a one-character separator with its
  inverse `Join`, and `includes`, each with the lemmas that tie them to an
  independent definition.
- `models.dfy` (`Models`): the settings record and the user row.
- `store.dfy` (`Store`): the store as a `Database` class whose fields are the
  tables (`users`, `user_roles`, `users_address`, the settings row); one
  method per SQL statement the handlers run. The uniqueness of
  `users.user_email` is enforced here: inserting a taken email throws
  `UNIQUE constraint failed: users.user_email`.
- `admin_user_api.dfy` (`AdminUserApi`): the handlers, their responses and
  status codes, and the lemmas about them.

Collaborators outside the file are parameters of the handlers: whether a KV
binding exists, the configured domain list, the list of valid role names,
the password policy's verdict (`None` when `checkUserPassword` accepts,
`Some(message)` when it throws) and, for every statement, a `Fault` saying
whether the store runs it, reports `success: false`, or throws. A statement
that does not report success has no effect on its table. A request field
that JavaScript treats as falsy (`undefined`, `null`, `""`, `0`) is `""` for
strings and `None` for a user id.

Behaviour that follows the code rather than a prose reading of it:

- The sender's domain is the text between the first `@` and the NEXT `@` (or
  the end), not everything after the first `@`; `"a@b@c"` has domain `"b"`.
- In `createUser` the password policy runs inside the `try`, so a policy
  message containing `UNIQUE` is also answered with "User already exists";
  other policy messages give 500 "Failed to register: ...".
- In `resetPassword` a policy rejection is a 500, not a 400.
- `deleteUser` and `updateUserRoles` have no `try`; a statement that throws
  ends the handler with the error (`Uncaught`, a 500 from the host), and in
  `deleteUser` the bindings are then not deleted at all.
- Deleting an id that has no row is a success as long as the store reports
  success.

## Model

| member | source | states |
|---|---|---|
| `AdminUserApi.StatusOf` | worker/src/admin_api/admin_user_api.ts:18-145 | every error response has a 4xx/5xx status; 403 is used for the missing KV binding and for nothing else |
| `AdminUserApi.Status` | worker/src/admin_api/admin_user_api.ts:35-145 | status 200 exactly for `{ success: true }` |
| `AdminUserApi.ValidateSettings` | worker/src/admin_api/admin_user_api.ts:17-33 | settings are accepted iff all four requirements hold together; each error appears exactly when its check fails and all earlier checks passed (403 for KV, then missing sender, then domain, then limit); the domain error names the sender and exactly the configured domains |
| `AdminUserApi.SaveSetting` | worker/src/admin_api/admin_user_api.ts:15-35 | success iff the settings are acceptable; the stored settings become the submitted object on success and are untouched on any refusal |
| `AdminUserApi.MailDomainAbsent` | worker/src/admin_api/admin_user_api.ts:25-27 | `split("@")[1]` is undefined exactly when the sender has no `@` |
| `AdminUserApi.MailDomainOf` | worker/src/admin_api/admin_user_api.ts:25 | for `local@domain` followed by nothing or another `@`, the domain taken is `domain` |
| `AdminUserApi.MailDomainFound` | worker/src/admin_api/admin_user_api.ts:25 | conversely, any domain taken is the `@`-free text right after the first `@` |
| `AdminUserApi.VerifyWithoutKvForbidden` | worker/src/admin_api/admin_user_api.ts:18-20 | mail verification without KV is refused with 403 whatever the sender, domains and limit |
| `AdminUserApi.NegativeLimitRejected` | worker/src/admin_api/admin_user_api.ts:31-33 | a negative address limit is always refused, and with mail verification off it is the 400 "Invalid maxAddressCount" |
| `AdminUserApi.SenderWithoutAtRejected` | worker/src/admin_api/admin_user_api.ts:24-30 | with KV present, a non-empty sender without `@` fails the domain check for every domain list |
| `AdminUserApi.ConfiguredSenderAccepted` | worker/src/admin_api/admin_user_api.ts:24-35 | with KV present, `local@domain` with a configured domain and a non-negative limit is accepted |
| `AdminUserApi.ClassifyRegisterError` | worker/src/admin_api/admin_user_api.ts:81-87 | a caught message gives "User already exists" (400) iff it contains `UNIQUE`, otherwise "Failed to register: message" (500) |
| `AdminUserApi.UniqueViolationIsDuplicate` | worker/src/admin_api/admin_user_api.ts:72-85 | the store's duplicate-email error is answered with 400 "User already exists" |
| `AdminUserApi.CreateUser` | worker/src/admin_api/admin_user_api.ts:61-89 | missing email or password gives 400 before any insert; policy errors are classified like insert errors; success exactly when the email was free and the store succeeded, and then the table gains exactly that row; every failure leaves the table unchanged; email uniqueness is kept |
| `AdminUserApi.RegisterTwice` | worker/src/admin_api/admin_user_api.ts:61-88 | registering the same new email twice gives success, then 400 "User already exists" |
| `AdminUserApi.DeleteUser` | worker/src/admin_api/admin_user_api.ts:90-103 | missing id gives 400 and no write; otherwise each delete's effect stands on its own, 500 if either reports failure, a throw from the first skips the second; on success neither the row nor any binding of the user remains |
| `AdminUserApi.ResetPassword` | worker/src/admin_api/admin_user_api.ts:104-120 | missing id gives 400; a policy rejection or store failure gives 500 and changes nothing; on success only that user's password changes, ids and emails stay |
| `AdminUserApi.RolesAfter` | worker/src/admin_api/admin_user_api.ts:124-141 | an empty role removes the user's entry, any other role becomes the user's entry, every other user's entry is unchanged |
| `AdminUserApi.RolesAfterIdempotent` | worker/src/admin_api/admin_user_api.ts:137-141 | applying the same role request twice gives the table of applying it once |
| `AdminUserApi.UpdateUserRoles` | worker/src/admin_api/admin_user_api.ts:121-146 | missing id gives 400; empty role clears and succeeds whether or not an entry existed; an unknown role gives 400 with no write; a valid role is upserted; only a store success changes the table; a table holding only valid roles keeps holding only valid roles |
| `AdminUserApi.AssignRoleTwice` | worker/src/admin_api/admin_user_api.ts:137-145 | assigning the same valid role twice succeeds both times and leaves exactly one entry, that role |
| `Strings.Split` | worker/src/admin_api/admin_user_api.ts:25 | `split` always yields at least one part |
| `Strings.JoinSplit` | worker/src/admin_api/admin_user_api.ts:25 | joining the parts of a split with the separator gives back the string |
| `Strings.SplitJoin` | worker/src/admin_api/admin_user_api.ts:25 | splitting a join of separator-free parts gives back the parts |
| `Strings.SplitPartsFree` | worker/src/admin_api/admin_user_api.ts:25 | no part of a split contains the separator |
| `Strings.SplitCount` | worker/src/admin_api/admin_user_api.ts:25 | a split has one more part than the string has separators |
| `Strings.SplitAfterPrefix` | worker/src/admin_api/admin_user_api.ts:25 | a separator-free prefix before the first separator is the first part, the rest splits on its own |
| `Strings.SplitFirstPart` | worker/src/admin_api/admin_user_api.ts:25 | the first part ends at the first separator |
| `Strings.ContainsIff` | worker/src/admin_api/admin_user_api.ts:83 | `includes` holds iff the text occurs at some position |
| `Store.Reported` | worker/src/admin_api/admin_user_api.ts:93-98 | a statement reports success exactly when it is not faulted, and throws exactly when the fault is a throw |
| `Store.Database.InsertUser` | worker/src/admin_api/admin_user_api.ts:72-77 | a taken email throws the UNIQUE error; success adds one row under a fresh id; otherwise nothing changes; emails stay unique |
| `Store.Database.DeleteUserRow` | worker/src/admin_api/admin_user_api.ts:93-95 | on success the row with that id is gone and nothing else changed |
| `Store.Database.DeleteBindings` | worker/src/admin_api/admin_user_api.ts:96-98 | on success exactly the bindings of that user are gone |
| `Store.Database.UpdatePassword` | worker/src/admin_api/admin_user_api.ts:110-112 | on success only that row's password changes (no row, no change) |
| `Store.Database.DeleteRole` | worker/src/admin_api/admin_user_api.ts:125-127 | on success the user's role entry is gone |
| `Store.Database.UpsertRole` | worker/src/admin_api/admin_user_api.ts:137-141 | on success the user's entry is the role, inserted or replaced |
| `Store.Database.WriteUserSettings` | worker/src/admin_api/admin_user_api.ts:34 | the whole settings object replaces the stored one |

## Left out

- `getSetting`, `getUsers` and `getBindedAddresses` (worker/src/admin_api/admin_user_api.ts:10-14, 37-60, 147-164): read-only queries handed to the store or to the list-query helper; `LIKE` matching, `COUNT` subqueries and ordering are the store's behaviour.
- `checkUserPassword`, `getDomains`, `getUserRoles`, `getJsonSetting`, the settings write helper and the `UserSettings` constructor live in files that are not part of this model; their results are parameters (the policy verdict, the domain list, the role names, the settings record).
- `GeoData` and `UserInfo` built from the `cf-connecting-ip` header and request metadata, and the `user_info` column they fill: request metadata plumbing.
- Timestamps (`created_at`, `updated_at`, `datetime('now')`) are not columns of the modelled tables.
- Response texts are error tags, not formatted strings; the pretty-printed domain list is represented by the list itself.
- `UserSettings.maxAddressCount` is an integer; JavaScript numbers that are fractional, `NaN` or missing are not modelled.
- Fields of the JSON body that are not strings (numbers, objects) and JSON parse failures of the request body.
- A throw from the settings write in `saveSetting` and from request parsing: no fault is attached to them.
- `Uncaught`: the status of an error escaping a handler is decided by the host framework; 500 is assumed.
- Concurrency between requests and atomicity of the two deletes beyond their sequential effect.
