# User management rules, modelled in Dafny

This project models the rules layer of a Django/REST-framework user
management backend. The modelled parts are:

- The `User` record and its manager (`create_user`, `create_superuser`,
  `activate`, `deactivate`, `update_last_login`, `is_admin`, `get_short_name`).
  The user table is a map from id to record, held by a class whose methods
  change it in place.
- The serializer rules:
  - the signup password policy, checked in order with the first failure reported
  - the email pattern, lower-casing and uniqueness
  - full-name trimming
  - the password confirmations of signup and change-password
  - the login classification
  - the admin status whitelist
- The permission classes and the permission lists of the endpoints.
- The custom exception handler, which wraps every error in a
  `{success: false, message, errors}` envelope.
- The endpoints that carry rules of their own:
  - the outcome shape of signup, login and logout
  - the guards of admin activate and deactivate
  - the status, role and search filter pipeline of the admin user list,
    ordered newest first

A stored password is the abstract credential `Hashed(raw)` rather than a
real hash. `authenticate`, Django's built-in password validators, the JWT
library (token issue and blacklisting), `repr` and the clock are parameters
of the model.

Modules:

- `Wrappers`: `Option`, `Result`.
- `Text`: the ASCII part of Python's `lower`, `strip`, `split` and substring search.
- `Users`: `models.py`.
- `Serializers`: `serializers.py`.
- `Exceptions`: `exceptions.py`.
- `Permissions`: `permissions.py`.
- `Views`: `views.py`.

Some answers of the code are not the ones a reader might expect of such a
service; the model follows the code:

- A failed login is answered 400 (a serializer error), not 401.
- Activating a user that is already active is refused with 400; it is not an
  idempotent success.
- An inactive user asking for `/me` gets 403 from `IsActiveUser`, not 401.
- A logout whose refresh token the JWT library rejects (`TokenError`) is
  answered 400 with the error's text; it is not an unconditional success.

The model assumes the project's settings name `custom_exception_handler` as
the REST framework's exception handler and JWT authentication as its
authentication class (the settings are not part of this model). The 404
envelope of the admin views and the 401 answers to anonymous requests depend
on both.

## Model

| member | source | states |
|---|---|---|
| Text.Lower | backend/users/serializers.py:52 | `str.lower` keeps the length and lower-cases each ASCII capital, leaving every other character alone |
| Text.LowerIdempotent | backend/users/serializers.py:52 | lower-casing twice is lower-casing once |
| Text.Strip | backend/users/serializers.py:56-58 | `str.strip` returns the slice left after removing whitespace from both ends; it has no whitespace at either end and is empty exactly when the input is all whitespace |
| Text.StripUnchanged | backend/users/serializers.py:56-58 | a string with no whitespace at either end is its own strip |
| Text.Words | backend/users/models.py:93 | `str.split()` yields non-empty, whitespace-free words, none exactly for an all-whitespace string, and the first word is the whole word the string starts with after its leading whitespace |
| Text.WordsSplit | backend/users/models.py:93 | after the first word, which stands at the returned position, `split()` continues with the words of the rest of the string |
| Users.IsAdmin | backend/users/models.py:95-97 | `is_admin` holds iff the role is `admin` |
| Users.Activated | backend/users/models.py:99-102 | `activate` sets status `active` and stamps `updated_at` |
| Users.Deactivated | backend/users/models.py:104-107 | `deactivate` sets status `inactive` and stamps `updated_at` |
| Users.LoggedIn | backend/users/models.py:109-112 | `update_last_login` sets `last_login` to now |
| Users.StatusMutatorsFrame | backend/users/models.py:99-107 | activate and deactivate change nothing but `status` and `updated_at`; in particular the email is kept |
| Users.StatusMutatorsIdempotent | backend/users/models.py:99-107 | applying activate or deactivate twice, in either order, equals applying only the last one |
| Users.LoggedInFrame | backend/users/models.py:109-112 | `update_last_login` changes only `last_login` |
| Users.ShortNameAsWritten | backend/users/models.py:91-93 | `get_short_name` as written raises exactly when the full name is non-empty but all whitespace |
| Users.ShortName | backend/users/models.py:91-93 | the corrected short name is the first word of the full name, or the email when the name has no word |
| Users.ShortNameAgrees | backend/users/models.py:93 | the corrected and the written short name agree whenever the name is empty or has a word |
| Users.ShortNameBlankRaises | backend/users/models.py:93 | the name `" "` makes the written version raise, while the corrected one falls back to the email |
| Users.NormalizeEmail | backend/users/models.py:17 | `normalize_email` leaves an address without `@` unchanged; otherwise it splits the stripped address at its last `@`, keeps the local part and lower-cases the domain, keeping the stripped length |
| Users.NormalizeSplit | backend/users/models.py:17 | an address that is its own strip and holds an `@` is split at an `@` into the kept local part and the lower-cased domain |
| Users.NormalizeLowerEmail | backend/users/models.py:17 | a lower-case address without surrounding whitespace normalises to itself |
| Users.NewUser | backend/users/models.py:18-24 | the record `create_user` builds keeps the given id and email, takes role and status from the arguments or defaults them to `user` and `active`, is active with no last login and equal creation and update times, and its password checks against exactly the given one, or against none when none is given |
| Users.SuperuserExtra | backend/users/models.py:28-31 | `create_superuser`'s defaults: both flags become present and True unless given False, role and status are the given ones or `admin` and `active`, and the name is kept |
| Users.CheckPassword | backend/users/serializers.py:200-201 | `check_password` accepts nothing for an unusable password and, for a hashed one, exactly the password it was set from |
| Users.NewUserDefaults | backend/users/models.py:18-24 | without role, status or flag arguments a new user is `user`/`active`, not staff, has no last login, and its password checks against the given one |
| Users.InsertKeepsEmailsUnique | backend/users/models.py:54-60 | a record added under a fresh id, with an email nobody holds, keeps the emails unique |
| Users.InsertKeepsIds | backend/users/models.py:12-24 | a record added under the next id keeps the ids dense from 1 and each record under its own id |
| Users.ReplaceKeepsEmailsUnique | backend/users/models.py:54-60 | replacing a record by one with the same email keeps the emails unique |
| Serializers.AddError | backend/users/serializers.py:43-88 | a rejected field adds exactly its key with its messages, an accepted one adds nothing, and other keys keep their messages |
| Users.UserStore.constructor | backend/users/models.py:54-60 | an empty table satisfies the table invariant (ids dense from 1, ids match keys, emails unique) |
| Users.UserStore.Rows | backend/users/views.py:259 | `User.objects.all()` lists every stored record exactly once |
| Users.UserStore.CreateUser | backend/users/models.py:12-24 | an empty email fails and stores nothing; a normalised email already present fails as a duplicate; otherwise exactly one record with the next id and the defaults is added, and emails stay unique |
| Users.UserStore.CreateSuperuser | backend/users/models.py:26-38 | an explicit non-True `is_staff`, then `is_superuser`, is refused before anything is stored; otherwise it is `create_user` on the normalised email: an empty email fails with the empty-email error and a taken address as a duplicate, and a new user has the staff and superuser flags, and role `admin` and status `active` unless given |
| Users.UserStore.Activate | backend/users/models.py:99-102 | only the target record changes, to its activated form |
| Users.UserStore.Deactivate | backend/users/models.py:104-107 | only the target record changes, to its deactivated form |
| Users.UserStore.UpdateLastLogin | backend/users/models.py:109-112 | only the target record changes, to its logged-in form |
| Serializers.TrimField | backend/users/serializers.py:112-117 | a present login field is replaced by the slice left after removing whitespace at both ends, which stripping again leaves unchanged and which is empty exactly when the input is all whitespace; an absent field stays absent |
| Serializers.TrimSignup | backend/users/serializers.py:27-41 | each of the four signup fields is stripped: stripping again changes nothing, and a field becomes empty exactly when it was all whitespace |
| Serializers.Search | backend/users/serializers.py:67-80 | each `re.search` character class holds iff some character of the password is in it |
| Serializers.PasswordPolicy | backend/users/serializers.py:60-88 | the reported failure holds, and no check earlier in the order (length, upper, lower, digit, special, built-in) fails; no failure iff none of them fails |
| Serializers.PolicyAccepts | backend/users/serializers.py:60-88 | a password passes iff it has length at least 8, an upper-case letter, a lower-case letter, a digit and a listed special character, and the built-in validators raise nothing |
| Serializers.PolicyRejectsHyphen | backend/users/serializers.py:79-80 | `Passw0rd-` fails the special-character check, because `-` is not in the set |
| Serializers.PolicyRejectsAllLower | backend/users/serializers.py:67-68 | `password` fails first on the upper-case check |
| Serializers.PolicyAcceptsExample | backend/users/serializers.py:60-88 | `Passw0rd!` passes every custom check |
| Serializers.EmailShapeCorrect | backend/users/serializers.py:45-46 | the first-`@`/last-`.` decision procedure accepts exactly the strings matching the email pattern |
| Serializers.ValidateSignupEmail | backend/users/serializers.py:43-52 | a non-matching email is invalid; a matching one whose lower-case form exists is a duplicate; otherwise the lower-case form is returned and is not taken |
| Serializers.AcceptedEmailEnds | backend/users/serializers.py:45 | an address matching the pattern starts and ends with a non-whitespace character, also after lower-casing |
| Serializers.AcceptedEmailIsNormal | backend/users/serializers.py:52 | the lower-cased form of an accepted address is non-empty and normalises to itself |
| Serializers.ValidateUpdateEmail | backend/users/serializers.py:157-168 | a non-matching profile email is invalid; a matching one whose lower-case form another user holds is a duplicate; it is accepted iff it matches and no other user holds that form, and the lower-case form is returned |
| Serializers.OwnEmailAccepted | backend/users/serializers.py:165 | re-submitting one's own email is accepted, although signup would call it taken |
| Serializers.UpdateEmailWeaker | backend/users/serializers.py:43-52 | whatever signup accepts, the profile update accepts with the same result |
| Serializers.ValidateFullName | backend/users/serializers.py:54-58 | a full name succeeds iff its strip has length at least 2, and the strip is returned |
| Serializers.FullNameTrimmed | backend/users/serializers.py:170-174 | the accepted name is a substring of the input with no whitespace at either end and length at least 2 |
| Serializers.SignupFieldErrors | backend/users/serializers.py:43-88 | each field has an error key iff its validator rejects it, holding that validator's message (the policy's messages for the password), and no other key appears |
| Serializers.ValidateSignup | backend/users/serializers.py:90-96 | signup is valid iff every field is valid and the two passwords are equal; any field error is reported as the field error map, and only with no field error is a mismatch reported, under `confirm_password`; the cleaned data is the lower-case untaken email, the stripped name and the password |
| Serializers.CreateFromSignup | backend/users/serializers.py:98-106 | `create` adds the user through `create_user` as an active regular user with the cleaned name and the hashed password |
| Serializers.SignupMismatchKeyedOnConfirm | backend/users/serializers.py:90-96 | with otherwise valid fields, a mismatch fails with the single key `confirm_password` |
| Serializers.SignupDuplicateFails | backend/users/serializers.py:49-50 | an email whose lower-case form is taken makes signup fail with an `email` error |
| Serializers.ValidateLogin | backend/users/serializers.py:119-147 | in order: a missing email or password, no authenticated user, an inactive user; otherwise the authenticated user's id; every failure carries one `detail` message |
| Serializers.LoginHidesIdentity | backend/users/serializers.py:131-134 | an unknown email and a wrong password get the same error |
| Serializers.LoginInactive | backend/users/serializers.py:136-139 | an authenticated inactive user gets the deactivated message |
| Serializers.ChangePasswordFieldErrors | backend/users/serializers.py:197-230 | the current-password key appears iff the password does not check, with the incorrect-password message; the new-password key appears iff the policy rejects it, with the policy's messages |
| Serializers.ValidateChangePassword | backend/users/serializers.py:197-247 | the change is valid iff the current password checks, the new one passes the policy, the confirmation equals it and it differs from the current one; field errors are reported as the field error map, then a mismatch on `confirm_new_password`, then a reused password on `new_password` |
| Serializers.ChangePasswordWrongCurrent | backend/users/serializers.py:200-201 | a wrong current password fails, keyed on `current_password` |
| Serializers.ChangePasswordCheckOrder | backend/users/serializers.py:234-247 | a mismatch is reported on `confirm_new_password` before the same-as-current check, which is reported on `new_password` |
| Serializers.ValidateStatus | backend/users/serializers.py:257-261 | only `active` and `inactive` are accepted, each as its own status |
| Exceptions.Handle | backend/users/exceptions.py:15-68 | the classification always yields a `success: false` envelope; it raises only for a dict detail of another kind; the status changes only for the authentication, permission and not-found kinds; `errors` is set only for a validation error or a dict detail |
| Exceptions.Response.constructor | backend/users/exceptions.py:19 | the response holds the given status and body |
| Exceptions.CustomExceptionHandler | backend/users/exceptions.py:15-68 | no response stays no response; otherwise the status and body are rewritten to the classification, and the handler raises only where that classification raises |
| Exceptions.EnvelopeAlwaysFails | backend/users/exceptions.py:22-26 | every handled response carries an envelope with `success: false` |
| Exceptions.ValidationErrorPassesThrough | backend/users/exceptions.py:29-31 | a validation error keeps its status and reports the original body as `errors` |
| Exceptions.StatusByKind | backend/users/exceptions.py:33-47 | both authentication kinds give 401, permission denied gives 403 and not-found gives 404; other kinds keep their status |
| Exceptions.FixedMessages | backend/users/exceptions.py:37-38 | not-authenticated and not-found carry their fixed texts |
| Exceptions.FirstEntryDecides | backend/users/exceptions.py:51-60 | for a dict detail only the first entry decides the message (a list's first element, otherwise its string), and the dict itself is the `errors` |
| Exceptions.EmptyDictKeepsDefault | backend/users/exceptions.py:51-60 | an empty dict detail leaves the default message |
| Exceptions.RaisesOnlyOnEmptyFirstList | backend/users/exceptions.py:56-57 | the handler raises exactly when the first value of a dict detail is an empty list |
| Permissions.HasAdminPermission | backend/users/permissions.py:13-18 | `IsAdmin.has_permission` holds iff a user is signed in with the admin role |
| Permissions.HasActivePermission | backend/users/permissions.py:27-32 | `IsActiveUser.has_permission` holds iff a user is signed in with status active |
| Permissions.HasOwnerOrAdminPermission | backend/users/permissions.py:41-46 | `IsOwnerOrAdmin.has_object_permission` always holds for an admin, and for a regular user iff the object has the user's id |
| Permissions.PermissionClasses | backend/users/views.py:41-348 | signup and login allow anyone; every other view lists `IsAuthenticated` first; exactly the current-user, profile and change-password views add `IsActiveUser`; exactly the four admin views add `IsAdmin`, and those never check the status |
| Permissions.AdminPermissionIgnoresStatus | backend/users/permissions.py:13-18 | `IsAdmin` holds iff a user is signed in with the admin role, whatever their status |
| Permissions.ActivePermissionExact | backend/users/permissions.py:27-32 | `IsActiveUser` holds iff a user is signed in with status active |
| Permissions.OwnerOrAdminExact | backend/users/permissions.py:41-46 | an admin may access any object; a regular user only an object with their own id |
| Permissions.FirstRefusal | backend/users/views.py:41-348 | the reported permission refuses and every permission listed before it holds; none is reported iff all hold |
| Permissions.Refusal | backend/users/views.py:41-348 | a request is refused iff some listed permission fails; a refused anonymous request gets not-authenticated with the credentials-not-provided text, a refused signed-in one permission-denied with the first refusing class's message |
| Permissions.DeactivatedAdminKeepsAdminAccess | backend/users/views.py:320 | a deactivated admin passes every admin endpoint but is refused by the self-service ones with the inactive message |
| Permissions.InactiveUserForbiddenSelfService | backend/users/views.py:161 | a deactivated user of either role is refused by the self-service endpoints with the inactive-account message, answered 403 |
| Permissions.RegularUserForbidden | backend/users/views.py:256 | a regular user is refused by admin endpoints, which answer 403 with the admin-only message |
| Permissions.AnonymousRefused | backend/users/views.py:104 | without a signed-in user every endpoint except signup and login answers 401 |
| Views.NotFoundReplyIsHandled | backend/users/views.py:323 | an unknown id is answered by the handler's 404 envelope with `Resource not found.` |
| Views.SignupPost | backend/users/views.py:43-63 | the fields are stripped before validation; a rejected signup is 400 with the serializer errors and stores nothing; an accepted one stores exactly one active regular user with the lower-case email and answers 201 with that user and its tokens |
| Views.LoginPost | backend/users/views.py:74-95 | both fields are stripped before validation; a rejected login is 400 with the errors and changes nothing; an accepted one records the login time first and answers 200 with the updated user and tokens |
| Views.LogoutPost | backend/users/views.py:106-130 | a missing or empty refresh token is 400 with `errors.refresh`; otherwise success iff the token is revoked, and a token error is 400 carrying its text |
| Views.LogoutGuardSkipsRevoke | backend/users/views.py:110-115 | without a refresh token the answer does not depend on the revoke step |
| Views.AdminActivatePost | backend/users/views.py:322-339 | unknown id is 404; an active user is 400 with the table unchanged; otherwise only that user is activated and the message names its email |
| Views.AdminDeactivatePost | backend/users/views.py:350-374 | unknown id is 404; then the caller's own id is 400, before the already-inactive 400; otherwise only that user is deactivated |
| Views.NewestFirstTail | backend/users/views.py:259 | the tail of a newest-first list is newest first and no newer than its head |
| Views.NewestFirstCons | backend/users/views.py:259 | a user no older than every element may be put in front |
| Views.InsertNewest | backend/users/views.py:259 | insertion keeps the order newest first and adds exactly the new user |
| Views.SortNewestFirst | backend/users/views.py:259 | `order_by('-created_at')` returns the same users, newest first |
| Views.Filter | backend/users/views.py:264-275 | `filter` keeps exactly the copies of the users that satisfy it, in their order, so a newest-first list stays newest first |
| Views.KeptBehindHead | backend/users/views.py:264-275 | users drawn from the tail of a newest-first list may follow its head |
| Views.FilterFuse | backend/users/views.py:264-275 | filtering twice equals one filter by both conditions |
| Views.FilterCongruent | backend/users/views.py:264-275 | filters that agree on every user give the same result |
| Views.FilterAll | backend/users/views.py:263-271 | a filter step that is skipped equals a filter keeping everybody |
| Views.MatchesSearch | backend/users/views.py:270-275 | the search matches a user iff the lower-cased search text occurs in the lower-cased email or full name; an empty text matches everybody, an exact occurrence always matches, and the case of the search text does not matter |
| Views.Selected | backend/users/views.py:262-275 | a user is listed iff its status equals a whitelisted status parameter, its role a whitelisted role parameter, and it matches a non-empty search; other parameter values impose nothing |
| Views.SelectedExact | backend/users/views.py:262-271 | a status or role outside its whitelist, or an empty search, selects as if absent; the whitelisted values select exactly their status or role |
| Views.FilterByStatusAndRole | backend/users/views.py:259-268 | the status and role steps give the sorted table filtered by both guards |
| Views.GetQueryset | backend/users/views.py:258-277 | the list is the store's sorted table filtered by the selection, newest first, holding exactly the selected stored users with their multiplicities, as a subsequence of the sorted table |
| Views.GetQuerysetAsWritten | backend/users/views.py:270-275 | as written, the list fails with a `NameError` exactly when a non-empty search is given, and otherwise equals the corrected list |

## Left out

- Field-level validation done by the REST framework before the custom
  validators is not modelled. This covers `required`, `allow_blank`, the
  `min_length=8` of the password fields, the `max_length=255` of the email
  and full-name columns, `EmailField`'s own email check, the unique validator
  and `ChoiceField`. The custom validators run on the values
  that pass those checks.
- `Serializers.ValidateSignup`, `Serializers.ValidateLogin`,
  `Serializers.ValidateChangePassword`, `Serializers.ValidateUpdateEmail` and
  `Serializers.ValidateFullName` take the field values after the framework's
  `trim_whitespace` (on by default for every `CharField` and `EmailField`)
  has stripped them. `Views.SignupPost` and `Views.LoginPost` apply that
  stripping (`Serializers.TrimSignup`, `Serializers.TrimField`); the
  change-password and profile endpoints are not modelled, so there the
  stripping is left to the caller.
- JWT issue, refresh and blacklisting are not modelled. Tokens come from a
  parameter `issue`, and logout's revoke step is a parameter that returns the
  `TokenError` text. `TokenRefreshAPIView` is not part of this model.
- Hashing is not modelled: a password is stored as the abstract
  `Hashed(raw)`, or `Unusable` for `None`.
- `authenticate` and Django's `validate_password` are not modelled. They are
  parameters: a lookup from email and password to a user id, and a list of
  messages.
- Pagination of the admin list is not modelled: page size and links come from
  settings.
- Timestamps are not modelled: `now` is a parameter.
- Transactions and concurrent requests are not modelled.
- Unicode is not modelled: `lower`, `strip`, `split` and `\d` cover ASCII only.
- Regex detail: Python's `$` also matches before a trailing newline. The
  model treats `$` as the end of the string.
- `repr`/`str` of error details are a parameter of the handler.
- Exception kinds are not modelled as a class hierarchy. Each exception has
  exactly one kind, so a subclass of a listed exception counts as that kind.
- `Views.SortNewestFirst`: users with equal `created_at` are put in an order
  the database does not promise. Only the newest-first order is stated.
- `Users.UserStore.CreateSuperuser`: `is_staff`/`is_superuser` are modelled as booleans.
  A non-boolean truthy value, which `is not True` would also refuse, is not
  represented.
- The profile update (`UserProfileView.put`), the password change
  (`ChangePasswordView.post`), the read-only GET endpoints and the admin
  detail view are not modelled as endpoint methods. Their validators
  (`Serializers.ValidateUpdateEmail`, `Serializers.ValidateFullName`,
  `Serializers.ValidateChangePassword`) and their permission lists are
  modelled.
- Routing, the admin site, the management command and the frontend are not
  part of this model.

## Findings

| source | as written | input that shows it | evidently intended | confidence | as-written member | corrected member |
|---|---|---|---|---|---|---|
| backend/users/views.py:270-275 | the search filter uses `models.Q`, but `models` is never imported in the file, so any non-empty search raises `NameError` | `GET /api/admin/users/?search=a` | keep the users whose email or full name contains the search text, ignoring case | not executed | Views.GetQuerysetAsWritten | Views.GetQueryset |
| backend/users/models.py:93 | `full_name.split()[0]` runs whenever `full_name` is non-empty; a name of only whitespace splits into no words and raises `IndexError` | a user with `full_name = " "` | fall back to the email when the name has no word | not executed | Users.ShortNameAsWritten | Users.ShortName |
