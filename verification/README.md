# Account validation and mutation in UserService

A Dafny model of the user-account core of the VOJ online judge: the format
rules for usernames, passwords, e-mail addresses and personal websites; the
login check; registration; password change; profile update; and the
upsert of per-user meta entries. Each use case computes a record of named
checks, derives `isSuccessful` as a fixed conjunction of them, and writes to
the store only when it holds. The model proves what each of those records
means in terms of the inputs and the store. It also proves how the store
changes, and that the database's uniqueness of uid, username and email
survives every write, provided the `User` object a caller passes in is its
stored row.

Modules:

- `Wrappers` (wrappers.dfy): `Option`, the lookups' "not found".
- `CharClasses` (charclasses.dfy): the ASCII character classes of the
  patterns, and `Span`, the longest prefix drawn from a class.
- `Legality` (legality.dfy): `isUsernameLegal`, `isPasswordLegal`,
  `isEmailLegal`, `isWebsiteLegal` and `isOldPasswordCorrect`. Each regular
  expression is written as a one-pass recogniser. It is also written as the
  language of the expression, with explicit split positions. A lemma
  proves that the two agree on every string.
- `Accounts` (accounts.dfy): users, groups, languages and meta; the store and
  its invariant `Valid`; the mapper operations the service uses.
- `UserService` (userservice.dfy): the lookups and existence checks, the four
  use cases, their result records and the private `updateUserMeta` upsert.
- `AccountProperties` (properties.dfy): properties relating several calls,
  or a call and the store invariant.

The store is immutable. Every operation returns a `Step` holding the result
record and the store after the call. The users table is a sequence of rows,
and each row carries its uid. Lookups return the first matching row, which
under `Valid` is the only one. Meta is a map from uid to that user's
key-to-value map. Library calls are fields of the `Collaborators`
parameter: `DigestUtils.md5Hex`, `HtmlTextFilter.filter` and
`SensitiveWordFilter.filter`. Nothing is assumed about them beyond being
functions. The registration timestamp is an already-formatted string
parameter. The CSRF and allow-registration flags are parameters too, as in
the source.

## Model

| member | source | states |
|---|---|---|
| Legality.UsernameLegalIff | web/src/main/java/com/trunkshell/voj/web/service/UserService.java:302-304 | the username recogniser accepts exactly the strings of 6 to 16 characters whose first is an ASCII letter and whose others are ASCII letters, digits or '_' |
| Legality.UsernameLengthsAccepted | web/src/main/java/com/trunkshell/voj/web/service/UserService.java:296-304 | "abcdef" (6 characters) and a 16-character name are legal |
| Legality.UsernameLengthsRejected | web/src/main/java/com/trunkshell/voj/web/service/UserService.java:296-304 | 5- and 17-character names, "ab1" and a name starting with a digit are illegal |
| Legality.PasswordLengthBoundaries | web/src/main/java/com/trunkshell/voj/web/service/UserService.java:322-325 | a password is legal exactly when it has 6 to 16 characters, whatever they are; 5 and 17 characters and the empty password fail, 6 and 16 pass |
| Legality.EmailLegalIff | web/src/main/java/com/trunkshell/voj/web/service/UserService.java:346-349 | an address is legal exactly when it has at most 64 characters and splits as local '@' label '.' tail, each part non-empty, local and tail over [A-Za-z0-9._-] and label over [A-Za-z0-9_-] |
| Legality.EmailExamples | web/src/main/java/com/trunkshell/voj/web/service/UserService.java:346-349 | "a@b" is illegal and "user@example.com" is legal |
| Legality.WebsiteLegalIff | web/src/main/java/com/trunkshell/voj/web/service/UserService.java:383-387 | a website is legal exactly when it is empty, or has at most 64 characters and is "http://" or "https://" followed by a non-empty [A-Za-z0-9-] label, '.', and a non-empty [A-Za-z0-9_.] tail |
| Legality.WebsitesAccepted | web/src/main/java/com/trunkshell/voj/web/service/UserService.java:383-387 | the empty website and "https://a.b" are legal |
| Legality.WebsitesRejected | web/src/main/java/com/trunkshell/voj/web/service/UserService.java:383-387 | a bare scheme, a host without a dot and an ftp URL are illegal |
| Legality.IsOldPasswordCorrect | web/src/main/java/com/trunkshell/voj/web/service/UserService.java:333-338 | an empty submitted old password is correct for every stored digest; a non-empty one is correct exactly when its digest equals the stored digest |
| Accounts.SelectBy | web/src/main/java/com/trunkshell/voj/web/mapper/UserMapper.java:55-74 | a username or email lookup finds a stored row carrying that key, and returns None only when no row carries it |
| Accounts.SelectByUid | web/src/main/java/com/trunkshell/voj/web/mapper/UserMapper.java:42-48 | a lookup by a signed uid finds a stored row with that uid, and returns None only when no row has it |
| Accounts.SelectFindsStoredRow | web/src/main/java/com/trunkshell/voj/web/mapper/UserMapper.java:55-74 | when uid, username and email are each unique, looking up a stored user by any of them returns that very user |
| Accounts.InsertUser | web/src/main/java/com/trunkshell/voj/web/mapper/UserMapper.java:96-98 | insertion keeps every existing row in place and adds exactly one after them, carrying the next generated uid; when every stored uid is below that value the new uid is fresh and a lookup by it finds the new row; meta and reference data are untouched |
| Accounts.RewrittenRows | web/src/main/java/com/trunkshell/voj/web/mapper/UserMapper.java:104-106 | rewriting the rows of one uid adds nothing but the new user, drops nothing with another uid, and, when some row already had that uid, makes a lookup by it find the new user |
| Accounts.UpdateUser | web/src/main/java/com/trunkshell/voj/web/mapper/UserMapper.java:104-106 | an update keeps the number of rows; every row after it is either the given user or an earlier row with another uid; every earlier row with another uid survives; when some row had the uid, a lookup by it now finds the given user; an unknown uid changes nothing |
| UserService.GetUserUsingUid | web/src/main/java/com/trunkshell/voj/web/service/UserService.java:40-42 | fetch by a (signed) uid returns a stored user with that uid, or None exactly when there is none; a negative uid always gives None |
| UserService.GetUserUsingUsernameOrEmail | web/src/main/java/com/trunkshell/voj/web/service/UserService.java:70-80 | an identifier containing '@' is looked up by email, any other by username; None exactly when no row matches on that column |
| UserService.IsUsernameExists | web/src/main/java/com/trunkshell/voj/web/service/UserService.java:311-314 | true exactly when some stored user has the username |
| UserService.IsEmailExists | web/src/main/java/com/trunkshell/voj/web/service/UserService.java:357-360 | true exactly when some stored user has the email (registration form) |
| UserService.IsEmailExistsForEdit | web/src/main/java/com/trunkshell/voj/web/service/UserService.java:369-375 | keeping the current email is never reported as taken; a different email is taken exactly when some stored user has it |
| UserService.IsAccountValid | web/src/main/java/com/trunkshell/voj/web/service/UserService.java:88-104 | login fails when the identifier or the password is empty; isSuccessful equals isAccountValid; a successful login has a stored non-judger row matching the identifier and the digest |
| UserService.GetUserCreationResult | web/src/main/java/com/trunkshell/voj/web/service/UserService.java:150-173 | each flag reports its own check (emptiness of each field, the username and e-mail pattern languages, the 6-to-16 password length, existing rows with the username or email, a resolved language, the two caller flags); isSuccessful is the conjunction of the eleven, and holds exactly for a non-empty legal untaken username, a non-empty legal password, a non-empty legal untaken email, a resolved language, a valid CSRF token and open registration |
| UserService.CreateUser | web/src/main/java/com/trunkshell/voj/web/service/UserService.java:116-140 | on failure the store is unchanged; on success exactly one user is appended with the next uid, the digest of the password, the "users" group and the resolved language, and the new uid gets a RegisterTime meta entry; no other meta changes |
| UserService.GetChangePasswordResult | web/src/main/java/com/trunkshell/voj/web/service/UserService.java:202-215 | each flag reports its own check: the old password is empty or digests to the stored one, the new one is empty, has 6 to 16 characters, equals the confirmation; isSuccessful is the conjunction of the four and holds exactly when the old password is empty or digests to the stored one, and the new password is non-empty, 6 to 16 characters long and equal to the confirmation |
| UserService.ChangePassword | web/src/main/java/com/trunkshell/voj/web/service/UserService.java:183-192 | on failure the store is unchanged; on success only the user's row changes, to the same user with the digest of the new password; meta is never touched |
| UserService.UpdateUserMeta | web/src/main/java/com/trunkshell/voj/web/service/UserService.java:281-294 | an absent key with an empty value changes nothing; an absent key with a non-empty value is created; a present key takes the value, even ""; every other key of the user and every other user's meta are unchanged |
| UserService.GetUpdateProfileResult | web/src/main/java/com/trunkshell/voj/web/service/UserService.java:257-273 | isSuccessful is the conjunction of the six checks (each flag's meaning is stated by `UserService.ProfileFlags`) and holds exactly for a non-empty legal email that is the user's own or nobody's, a filtered location of at most 128 characters, a legal filtered website and a filtered aboutMe of at most 256 characters; keeping the current email never counts as taken |
| UserService.ProfileFlags | web/src/main/java/com/trunkshell/voj/web/service/UserService.java:257-273 | each flag of a profile update reports its own check: the email is empty; it has at most 64 characters and is in the e-mail pattern language; it differs from the user's own and some stored row has it; the filtered location has at most 128 characters; the filtered website is empty or at most 64 characters in the website pattern language; the filtered aboutMe has at most 256 characters |
| UserService.UpdateProfile | web/src/main/java/com/trunkshell/voj/web/service/UserService.java:227-245 | checks run on the filtered fields; on failure the store is unchanged; on success the user's row gets the new email and each of location, website, socialLinks and aboutMe is upserted with its filtered value, while the user's other meta keys and all other users' meta are unchanged |
| AccountProperties.LoginIff | web/src/main/java/com/trunkshell/voj/web/service/UserService.java:88-104 | when keys are unique, login succeeds exactly when both inputs are non-empty and some stored non-judger row matches the identifier on the column '@' selects and has that password digest |
| AccountProperties.JudgersCannotLogIn | web/src/main/java/com/trunkshell/voj/web/service/UserService.java:96-98 | a stored user of the "judgers" group never logs in through an identifier that names it, whatever password is given |
| AccountProperties.TakenUsernameIsRejected | web/src/main/java/com/trunkshell/voj/web/service/UserService.java:116-173 | registering a username already in the store reports isUsernameExists, fails and writes nothing |
| AccountProperties.CreateUserPreservesValid | web/src/main/java/com/trunkshell/voj/web/service/UserService.java:116-140 | registration keeps uids, usernames and emails unique and all meta owned by allocated uids |
| AccountProperties.RegisteredUserCanLogIn | web/src/main/java/com/trunkshell/voj/web/service/UserService.java:116-140 | after a successful registration the new user logs in by username and by email with the digest of the password exactly when that digest is non-empty, and its meta is exactly the RegisterTime entry |
| AccountProperties.EmptyOldPasswordSkipsCheck | web/src/main/java/com/trunkshell/voj/web/service/UserService.java:202-215 | with an empty old password the change succeeds exactly when the new password is legal and confirmed, whatever is stored |
| AccountProperties.ChangePasswordPreservesValid | web/src/main/java/com/trunkshell/voj/web/service/UserService.java:183-192 | a password change keeps uids, usernames and emails unique when the caller's user object is its stored row |
| AccountProperties.StaleUserBreaksDistinctEmails | web/src/main/java/com/trunkshell/voj/web/service/UserService.java:183-192 | the write-back copies every column of the caller's object, so a successful change through a stored user's object carrying another stored row's email turns a store with unique keys into one where two distinct rows carry that email |
| AccountProperties.ChangedPasswordIsAccepted | web/src/main/java/com/trunkshell/voj/web/service/UserService.java:183-192 | after a successful change the stored row holds the digest of the new password; a further change of that stored row submitting the new password as the old one passes the old-password check and succeeds exactly when the next password is legal; for a username without '@', logging in by it with the new digest succeeds exactly when the username and the digest are non-empty and the user is not a judger |
| AccountProperties.NewEmailLogsIn | web/src/main/java/com/trunkshell/voj/web/service/UserService.java:227-245 | after a successful profile update of a stored user, logging in with the new email and the stored digest succeeds exactly when that digest is non-empty and the user is not a judger |
| AccountProperties.UpsertIdempotent | web/src/main/java/com/trunkshell/voj/web/service/UserService.java:281-294 | writing a meta value the entry already has, or an empty value for an absent key, leaves the store unchanged |
| AccountProperties.UpdateProfilePreservesValid | web/src/main/java/com/trunkshell/voj/web/service/UserService.java:227-245 | a profile update keeps uids, usernames and emails unique and all meta owned by allocated uids, when the caller's user object is its stored row |
| AccountProperties.UpdateProfileIdempotent | web/src/main/java/com/trunkshell/voj/web/service/UserService.java:227-294 | submitting the same profile a second time, for the user as the first call left it, succeeds again and leaves the store as the first call left it |

## Left out

- `getUserMetaUsingUid` (UserService.java:49-63): it parses the socialLinks value with fastjson, whose semantics are not visible. The model reads meta back only as the stored strings (`Accounts.MetaOf`).
- `getNumberOfUsers` and `getNumberOfUserRegisteredToday`: these are count queries. The second one also builds a day window from the wall clock.
- The RegisterTime timestamp is not built from the clock. `CreateUser` takes it as a string that is already formatted.
- `getUserGroupUsingSlug` is a plain map lookup (`Accounts.GroupBySlug`, which `UserService.CreateUser` uses for the "users" group) and has no contract of its own.
- MD5, HTML filtering and sensitive-word filtering are arbitrary functions, passed in through `Collaborators`.
- `UserService.CreateUser` requires the "users" group to be in the reference data. Without it, the source would store a null group reference, and a later login by that user would fail with a null dereference. The model does not represent a null group.
- `AccountProperties.ChangedPasswordIsAccepted` states the login by username only for a username without '@'. A username containing '@' is looked up by email instead. Registration's `isUsernameLegal` rules these names out, but `Valid` does not, so a stored row could carry one.
- An MD5 hex digest is never empty, but the model's digest is an arbitrary function. The login lemmas (`AccountProperties.RegisteredUserCanLogIn`, `AccountProperties.ChangedPasswordIsAccepted`, `AccountProperties.NewEmailLogsIn`) therefore carry the empty digest as a case: login then fails, because `isAccountValid` rejects an empty password.
- `UserService.IsAccountValid` only promises the matching-row direction by itself. The converse, that a matching non-judger row does log in, holds only when keys are unique, and `AccountProperties.LoginIff` proves it under `Valid`.
- Lengths count Dafny characters (Unicode scalar values). Java's `String.length` counts UTF-16 code units, so the two differ for characters outside the Basic Multilingual Plane.
- Lookups compare strings exactly. A case-insensitive database collation is not modelled.
- The source also sets the new password or email on the caller's `User` object. The model returns only the store, whose row for that uid equals the updated object.
- Null arguments, which make the source throw, are not modelled. Neither are store failures or duplicate-key errors raised by the database.
- `AccountProperties.ChangePasswordPreservesValid` and `AccountProperties.UpdateProfilePreservesValid` promise unique keys only when the caller's `User` object is its stored row. `updateUser` writes every column of the object back, so a stale object can copy another user's email into its row. The database's unique constraint would then reject the write; the model has no such error and keeps the duplicate, as `AccountProperties.StaleUserBreaksDistinctEmails` shows.
- Spring transactions and the race between the existence checks and the insert are not modelled. The model is sequential, so each use case's writes happen together.
- The mapper's `getUserUsingUserGroup` and `deleteUser` are not used by the modelled core.
