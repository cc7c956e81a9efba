# Secure SMS sign-in pipeline and field encryption, in Dafny

This project models the security core of Secure SMS, a Flask student-management application, and proves properties of the model. The core has four parts:

- **The multi-factor sign-in pipeline of the `auth` blueprint.**
  - `register` stores a new account.
  - `login` checks the password and issues a zero-padded six-digit one-time code that lives five minutes.
  - `otp` accepts that code once, up to and including its expiry instant, for the session the server last wrote.
  - `biometric` is a simulated third step.
  - `logout` clears the session.
- **The field-encryption wrapper.**
  - `get_fernet` caches the cipher in a module global.
  - `encrypt_text` and `decrypt_text` have fallbacks for a missing key, a missing text and an invalid token.
- **The administrative views.**
  - The encrypted backup download and the restore that overwrites the database file.
  - Address encryption in the student create and edit views.
  - The student list, which decrypts every address.
  - The role set of every route.
- **The decisions around them.**
  - `role_required` (401 before 403) and the API's `role_required_api`.
  - The API token login, the API student listing and the API student creation.
  - The dashboard's gate and grade histogram.
  - The form validators.

The model is organised by module:

| module | what it holds |
|---|---|
| `Wrappers` | `Option`, Python exceptions as an `Outcome`, bytes |
| `Text` | Python's `str.isspace` and `str.strip` |
| `Utf8` | a strict UTF-8 codec with its round trip |
| `Models` | the `user` and `student` tables, and the lookups |
| `Forms` | the WTForms validators as predicates |
| `Web` | requests and responses |
| `Encryption` | the cipher cache and the two wrappers |
| `AuthRoutes` | the sign-in pipeline |
| `Access` | the role gates |
| `ApiRoutes` | the JSON API |
| `AdminRoutes` | backup, restore and the student views |
| `MainRoutes` | index and dashboard |

Where the source changes state in place, the model is a class whose methods change their fields:

- `AuthBlueprint` holds the session and the user table.
- `KeyCache` holds the module global `_fernet`.
- `StudentTable` holds the student table.
- `DatabaseFile` holds the bytes of `sms.db`.

Each method's `ensures` gives its new state and its answer, mostly through a pure step function (`LoginStep`, `OtpStep`, `Resolve`, `RestoreOutcome` and so on); the table methods and the student views state their new rows directly. The properties are proved about those functions.

Three things come from libraries and are represented by values:

- **The Fernet cipher** is a pair of functions. The model assumes one guarantee of it, `Authenticated`: tokens are non-empty and decrypt to their plaintext. It enters as a precondition, never as an axiom.
- **The bcrypt hasher** is a pair of functions. Its one guarantee, `HashesVerify`, is also a precondition.
- **The e-mail validator** is a predicate passed in.

Three inputs from outside are parameters:

- **The clock** is `now`, in whole seconds.
- **The draw of `secrets.randbelow(10**6)`** is `draw`.
- **The random IV and timestamp inside a Fernet token** are a `Nonce`.

Where the code and its documentation differ, the model follows the code:

- `get_fernet` lets a malformed key raise. Only the load at import time swallows the error.
- `decrypt_text` catches only `InvalidToken`, so a token that decrypts to bytes that are not UTF-8 raises.
- `biometric` and `logout` sit behind `@login_required`. A visitor who has passed only the password step is therefore redirected to the login page. `logout` does not clear that visitor's session, so the pending code survives.
- On the administrative routes `@login_required` runs before `role_required`. An anonymous request is redirected to the login page and never gets the 401.
- A failed password attempt writes no audit line (secure-sms/secure-sms/app/auth_routes.py:47-48 only flashes the message), although failed logins are meant to be audited; `LoginStep` emits no event on that branch. Only a failed code is audited.

## Model

| member | source | states |
|---|---|---|
| Text.Strip | secure-sms/secure-sms/app/auth_routes.py:34 | `.strip()` leaves no whitespace at either end, and the result is the infix of the input with only whitespace around it |
| Text.StripTrimmed | secure-sms/secure-sms/app/auth_routes.py:57 | a string with no whitespace at its ends is unchanged by the strip |
| Text.StripIdempotent | secure-sms/secure-sms/app/auth_routes.py:57 | stripping twice is stripping once |
| Text.StripSameLength | secure-sms/secure-sms/app/auth_routes.py:57 | a strip that keeps the length keeps the string |
| Text.StripEmpty | secure-sms/app/forms.py:16 | a string strips to nothing exactly when every character is whitespace (what `DataRequired` rejects) |
| Text.StripLeadingSpace | secure-sms/secure-sms/app/auth_routes.py:19 | whitespace in front of a name does not survive the strip the stored row receives |
| Utf8.EncodeChar | secure-sms/app/encryption.py:47 | `.encode("utf-8")` turns a character into one to four bytes |
| Utf8.Encode | secure-sms/app/encryption.py:47 | `.encode("utf-8")` of a string takes at least one and at most four bytes per character |
| Utf8.Decode | secure-sms/app/encryption.py:63 | a successful `.decode("utf-8")` gives at most one character per byte and at least one per four bytes |
| Utf8.DecodeFirstEncodeChar | secure-sms/app/encryption.py:63 | the strict decoder reads back exactly the character that was encoded, and its length |
| Utf8.DecodeEncode | secure-sms/app/encryption.py:63 | `.decode("utf-8")` of `.encode("utf-8")` gives back every string |
| Models.FindByUsername | secure-sms/secure-sms/app/auth_routes.py:34 | `filter_by(username=...).first()` finds a stored user with that name, or reports that none has it |
| Models.FindById | secure-sms/secure-sms/app/auth_routes.py:62 | `User.query.get` finds the stored user with that id, or reports that none has it |
| Models.AuthenticateIff | secure-sms/secure-sms/app/auth_routes.py:34-35 | with unique names, the password check passes exactly when a stored user of that name has a hash that accepts the password |
| Models.FindByIdAppend | secure-sms/secure-sms/app/auth_routes.py:21-22 | adding a user does not change what a lookup of an existing id finds |
| Models.FindByIdRowNumbers | secure-sms/app/models.py:26 | with integer keys counting rows, every id up to the row count names its row |
| Models.MaxStudentId | secure-sms/app/models.py:56 | the largest student key in use, 0 for an empty table: it is at least every key and is the key of some row, so one more is the key SQLite assigns next |
| Models.StudentTable.Add | secure-sms/app/models.py:58 | an insert whose e-mail is taken raises IntegrityError and stores nothing; otherwise the row is appended under the next key |
| Models.StudentTable.Update | secure-sms/app/admin_routes.py:62-66 | an update to an e-mail another row holds raises IntegrityError and stores nothing; otherwise only that row changes, and it keeps its key |
| Forms.RegisterFormGuarantees | secure-sms/app/forms.py:23-30 | a valid registration has a 3–80 character name, an e-mail of at most 120 characters, a password of at least 8 characters equal to its confirmation, and a role among student, teacher and admin |
| Forms.OtpFormAcceptsNonDigits | secure-sms/app/forms.py:36 | the code field takes exactly six characters of any kind, and rejects six blanks |
| Forms.RecordFormsGuarantees | secure-sms/app/forms.py:42-54 | a valid student form has a 2–120 character name, an e-mail of at most 120 characters and a grade among A–F; the same bounds apply to the teacher form's name and e-mail |
| Forms.DataRequired | secure-sms/app/forms.py:16 | `DataRequired()` admits a field exactly when it holds a character that is not whitespace |
| Forms.LoginFormValid | secure-sms/app/forms.py:14-18 | the login form is valid exactly when both the name and the password hold a character that is not whitespace |
| Forms.RegisterFormValid | secure-sms/app/forms.py:21-31 | a valid registration has non-blank name, e-mail and password, and an e-mail the `Email()` validator accepts |
| Forms.OtpFormValid | secure-sms/app/forms.py:34-37 | a valid code field is six characters long and not blank |
| Forms.OtpFormIff | secure-sms/app/forms.py:36 | for every input, the code field is valid exactly when it is six characters long and one of them is not whitespace; digits are not required |
| Forms.StudentFormValid | secure-sms/app/forms.py:40-49 | a valid student form has a non-blank name and e-mail, and an e-mail the `Email()` validator accepts |
| Forms.TeacherFormValid | secure-sms/app/forms.py:52-57 | the teacher form is valid exactly when name and e-mail are non-blank, the e-mail is accepted, the name has 2 to 120 characters and the e-mail at most 120 |
| Encryption.EncryptWith | secure-sms/app/encryption.py:44-47 | `encrypt_text` gives None exactly when there is no cipher or no text, so `""` is encrypted too |
| Encryption.DecryptWith | secure-sms/app/encryption.py:59-66 | `decrypt_text` gives `""` with no cipher or an empty or missing token, and `"[decryption failed]"` for a token the cipher rejects; the only exception it lets out is a UnicodeDecodeError |
| Encryption.TextRoundTrip | secure-sms/app/encryption.py:47-63 | with a cipher configured, decrypting what `encrypt_text` produced gives back every text |
| Encryption.OnlyAuthenticTokensRaise | secure-sms/app/encryption.py:62-66 | an invalid token never raises; an exception needs a token the cipher accepts whose plaintext is not UTF-8 |
| Encryption.Resolve | secure-sms/app/encryption.py:23-31 | `get_fernet` returns a cached instance as is; with an empty key it returns None and caches nothing; otherwise it returns and caches the instance the key builds, and a malformed key raises ValueError and caches nothing |
| Encryption.ResolveIdempotent | secure-sms/app/encryption.py:25-31 | a second call gives the same answer and leaves the cache as the first call left it |
| Encryption.CachedCipherAuthenticated | secure-sms/app/encryption.py:28-30 | whatever instance ends up cached is an authenticated cipher, so the round trip applies to it |
| Encryption.KeyCache.Import | secure-sms/app/encryption.py:14-20 | loading the module caches the instance a non-empty key builds, and leaves None when the constructor fails |
| Encryption.KeyCache.GetFernet | secure-sms/app/encryption.py:23-31 | the method returns what `Resolve` says and updates the global as `Resolve` says, and a cached instance is left untouched; with a loader that builds only authenticated ciphers, the instance returned is authenticated, so the text round trip applies to it |
| Encryption.KeyCache.EncryptText | secure-sms/app/encryption.py:34-47 | `encrypt_text` is `EncryptWith` applied to the resolved cipher, or the exception `get_fernet` raised |
| Encryption.KeyCache.DecryptText | secure-sms/app/encryption.py:50-66 | `decrypt_text` is `DecryptWith` applied to the resolved cipher, or the exception `get_fernet` raised |
| AuthRoutes.ZeroPadded | secure-sms/secure-sms/app/auth_routes.py:39 | `:0{width}d` padding of a number below 10^width gives exactly `width` decimal digits (the only numbers the code step formats are below 10^6) |
| AuthRoutes.ZeroPaddedValue | secure-sms/secure-sms/app/auth_routes.py:39 | the padded digits read back as the number whenever it fits |
| AuthRoutes.OtpCode | secure-sms/secure-sms/app/auth_routes.py:39 | the issued code is six decimal digits spelling the draw |
| AuthRoutes.OtpCodeInjective | secure-sms/secure-sms/app/auth_routes.py:39-40 | different draws give different codes |
| AuthRoutes.RegisterStep | secure-sms/secure-sms/app/auth_routes.py:16-26 | `register` either leaves the table and audit log alone and does not report success, or appends exactly one trimmed user under the next id and redirects with the success message |
| AuthRoutes.LoginStep | secure-sms/secure-sms/app/auth_routes.py:30-49 | `login` never signs anyone in or sets a later stage; when it changes the session it has issued a six-digit code expiring 300 seconds on, and redirects to the code view |
| AuthRoutes.OtpStep | secure-sms/secure-sms/app/auth_routes.py:53-72 | `otp` keeps `preauth_user_id` and `bio_ok`; when it changes the session it has signed in the pre-authenticated user, set `2fa_ok`, removed the code and its expiry, and redirected to the biometric step |
| AuthRoutes.BiometricStep | secure-sms/secure-sms/app/auth_routes.py:78-85 | `biometric` changes the session only by setting `bio_ok`, and only for a signed-in user with `2fa_ok` |
| AuthRoutes.LogoutStep | secure-sms/secure-sms/app/auth_routes.py:90-95 | `logout` leaves the session as it was or empties it, and always redirects to the login page |
| AuthRoutes.PasswordStepIssuesCode | secure-sms/secure-sms/app/auth_routes.py:34-46 | a correct password sets `preauth_user_id`, the code for the draw and an expiry 300 seconds on, changes nothing else, and sends the visitor to the code view |
| AuthRoutes.FailedLoginRevealsNothing | secure-sms/secure-sms/app/auth_routes.py:34-48 | an unknown name and a wrong password give the same page and message and leave the session unchanged |
| AuthRoutes.CodeLivesFiveMinutes | secure-sms/secure-sms/app/auth_routes.py:41 | the code issued at time t is accepted exactly up to and including t + 300 |
| AuthRoutes.ReloginRevokesEarlierCode | secure-sms/secure-sms/app/auth_routes.py:37-41 | a second password sign-in replaces the pending code, so the earlier code no longer matches |
| AuthRoutes.OtpNeedsPreauth | secure-sms/secure-sms/app/auth_routes.py:53-54 | with no `preauth_user_id`, `otp` redirects to login and changes nothing |
| AuthRoutes.OtpCodeStripped | secure-sms/secure-sms/app/auth_routes.py:57 | an issued code is its own stripped form |
| AuthRoutes.OtpAcceptsExactlyTheIssuedCode | secure-sms/secure-sms/app/auth_routes.py:57-60 | a submission the form admits is accepted exactly when it equals the issued code character for character and the clock is at or before the expiry |
| AuthRoutes.CorrectCodeSignsIn | secure-sms/secure-sms/app/auth_routes.py:60-68 | the issued code, entered in time, signs in the pre-authenticated user, removes the code and its expiry, sets `2fa_ok`, and keeps `preauth_user_id` and `bio_ok` |
| AuthRoutes.CodeIsSingleUse | secure-sms/secure-sms/app/auth_routes.py:64-66 | after a successful code step no submission signs in again or changes the session |
| AuthRoutes.RejectedCodeChangesNothing | secure-sms/secure-sms/app/auth_routes.py:69-71 | a code step that does not sign in leaves the session unchanged |
| AuthRoutes.WrongGuessesNeverLockOut | secure-sms/secure-sms/app/auth_routes.py:69-72 | any number of wrong or late guesses leaves the session unchanged, so the right code works afterwards as before (there is no attempt limit) |
| AuthRoutes.BiometricNeedsSecondFactor | secure-sms/secure-sms/app/auth_routes.py:78-82 | `bio_ok` becomes set only by a POST from a signed-in user with `2fa_ok`, and nothing else in the session changes |
| AuthRoutes.LogoutClearsOnlySignedIn | secure-sms/secure-sms/app/auth_routes.py:87-92 | logout empties the session of a signed-in user; any other visitor is redirected with the login-required message and keeps their session |
| AuthRoutes.StepsKeepSessionOk | secure-sms/secure-sms/app/auth_routes.py:37-92 | every view keeps the session invariant: a code only with its expiry and before sign-in, the signed-in user exists and passed the code, `bio_ok` only after `2fa_ok` |
| AuthRoutes.StagesOnlyAdvance | secure-sms/secure-sms/app/auth_routes.py:37-92 | the sign-in stage (none, password, code, biometric) never goes back, except through logout, which goes back to the start |
| AuthRoutes.RegistrationKeepsTable | secure-sms/secure-sms/app/auth_routes.py:16-22 | registration keeps names and e-mails unique and ids equal to row numbers, only ever appends one row, and appends exactly when it reports success |
| AuthRoutes.RegisteredUserCanSignIn | secure-sms/secure-sms/app/auth_routes.py:19-35 | an account just registered passes the password step with the name and password as typed, under the next id |
| AuthRoutes.UntrimmedNameIsFree | secure-sms/secure-sms/app/auth_routes.py:16 | when every stored name is trimmed, the duplicate query never finds a name typed with whitespace at an end |
| AuthRoutes.CollisionFailsOnCommit | secure-sms/secure-sms/app/auth_routes.py:16-22 | a registration that the duplicate query lets through but whose stripped name or e-mail is taken fails on the commit with IntegrityError |
| AuthRoutes.PaddedDuplicateNameFailsOnCommit | secure-sms/secure-sms/app/auth_routes.py:16-22 | an existing name with a space in front passes the duplicate query, which compares the raw name, and then fails on the UNIQUE constraint with IntegrityError |
| AuthRoutes.AuthBlueprint.Register | secure-sms/secure-sms/app/auth_routes.py:12-26 | the view appends the user and the audit line `RegisterStep` describes, and keeps the table and session invariants |
| AuthRoutes.AuthBlueprint.Login | secure-sms/secure-sms/app/auth_routes.py:28-49 | the view updates the session in place as `LoginStep` describes and keeps the invariants |
| AuthRoutes.AuthBlueprint.Otp | secure-sms/secure-sms/app/auth_routes.py:51-72 | the view updates the session in place as `OtpStep` describes (`login_user`, the two pops, `2fa_ok`) and keeps the invariants |
| AuthRoutes.AuthBlueprint.Biometric | secure-sms/secure-sms/app/auth_routes.py:74-85 | the view updates the session in place as `BiometricStep` describes and keeps the invariants |
| AuthRoutes.AuthBlueprint.Logout | secure-sms/secure-sms/app/auth_routes.py:87-95 | the view clears the session as `LogoutStep` describes and keeps the invariants |
| Access.RoleRequired | secure-sms/app/utils.py:17-25 | an anonymous user gets 401, a signed-in user whose role is not listed gets 403, and otherwise the view runs on its own arguments |
| Access.AnonymousNeverForbidden | secure-sms/app/utils.py:21-24 | authentication is checked first, so an anonymous request never gets 403 |
| Access.EmptyRolesForbidEveryone | secure-sms/app/utils.py:23-24 | with no roles listed, every signed-in user gets 403 |
| Access.MoreRolesAdmitMore | secure-sms/app/utils.py:23-25 | listing more roles never refuses a user the shorter list admitted |
| Access.AdminGate | secure-sms/app/admin_routes.py:19-21 | in front of an administrative view, an anonymous request goes to login and is never answered 401; a signed-in user proceeds exactly when their role is listed, and gets 403 otherwise |
| Access.WhoReachesWhat | secure-sms/app/admin_routes.py:19-181 | the student list, create and edit views admit admins and teachers; student delete, every teacher route and every backup route admit only admins; other roles reach nothing |
| ApiRoutes.Get | secure-sms/app/api_routes.py:23-24 | `data.get(key, default)` gives the default for a missing key, None for JSON null, and a string member as it is |
| ApiRoutes.ApiLogin | secure-sms/app/api_routes.py:19-32 | `api_login` answers with a token, the 401, or an exception (AttributeError or TypeError); a token's claims are the id, role and name of a stored user |
| ApiRoutes.ApiLoginIff | secure-sms/app/api_routes.py:25-32 | a token (200) is issued exactly when the stripped name and the password authenticate, carrying that user's id, role and name; every failure is the one 401 |
| ApiRoutes.ApiLoginFailuresAlike | secure-sms/app/api_routes.py:32 | an unknown name and a wrong password get the identical 401 "Invalid credentials" |
| ApiRoutes.ApiLoginDefaults | secure-sms/app/api_routes.py:22-24 | missing fields read as `""`, and a body that is not JSON reads as an empty object |
| ApiRoutes.ApiAgreesWithLoginForm | secure-sms/app/api_routes.py:25-26 | the token endpoint accepts exactly the credentials the login form's password step accepts |
| ApiRoutes.RoleRequiredApi | secure-sms/app/api_routes.py:39-43 | 403 exactly when the role claim is missing or not listed; otherwise the view runs on its own arguments |
| ApiRoutes.StudentEndpointsAdmitStaff | secure-sms/app/api_routes.py:54 | a token from the login endpoint passes the student endpoints' guard exactly for admins and teachers |
| ApiRoutes.SerializeStudents | secure-sms/app/api_routes.py:57-66 | the listing has one entry per student, in query order, with the address decrypted; it raises exactly when some address's decryption raises |
| ApiRoutes.ApiStudents | secure-sms/app/api_routes.py:52-66 | a token whose role is neither admin nor teacher gets 403; otherwise the reply is the list of every student with the address decrypted, or a failure exactly when some decryption raises |
| ApiRoutes.ReadNewStudent | secure-sms/app/api_routes.py:74-80 | name and e-mail default to `""` and are exactly the stripped inputs (null raises AttributeError), the grade is taken as sent, and the address defaults to `""` without being stripped |
| ApiRoutes.ApiAddressRoundTrip | secure-sms/app/api_routes.py:80 | the address sent is the address stored, whitespace included; a missing address is `""`, and null stores no token |
| ApiRoutes.ApiStudentsCreate | secure-sms/app/api_routes.py:72-83 | the endpoint stores the row with the encrypted address under the next key and answers 201 with that id; a taken e-mail raises IntegrityError and stores nothing |
| AdminRoutes.DownloadResponse | secure-sms/app/admin_routes.py:163-176 | with no database file, or with no cipher, the answer is the redirect with its message; a `get_fernet` that raises is a server error with that exception; otherwise the download is exactly the encryption of the file's bytes, named `sms_backup.enc` |
| AdminRoutes.RestoreWritesOnlyDecryptedBackups | secure-sms/app/admin_routes.py:184-201 | the database file is overwritten only when a file was uploaded, a cipher exists and decryption succeeds, and then holds exactly the decrypted bytes; otherwise it is unchanged |
| AdminRoutes.BackupRoundTrip | secure-sms/app/admin_routes.py:172-201 | restoring a downloaded backup with the same cipher brings the file back to the bytes it held at download time |
| AdminRoutes.RestoreOutcome | secure-sms/app/admin_routes.py:184-204 | `backup_restore` changes the file only when a file was uploaded, a cipher exists and it decrypts the upload, and the file then holds the plaintext; it answers with a redirect, or with the exception `get_fernet` raised |
| AdminRoutes.BackupDownload | secure-sms/app/admin_routes.py:159-176 | the view answers as `DownloadResponse` says, and calls `get_fernet` only when the file exists |
| AdminRoutes.BackupRestore | secure-sms/app/admin_routes.py:182-204 | the view writes the file and answers as `RestoreOutcome` says, and calls `get_fernet` only when a file was uploaded |
| AdminRoutes.AddressText | secure-sms/app/admin_routes.py:41 | the text encrypted is the stripped address, or `""` when there is none |
| AdminRoutes.StoredAddressRoundTrip | secure-sms/app/admin_routes.py:41-64 | the token the create and edit views store is never missing, even for no address, and decrypts to the stripped address |
| AdminRoutes.FindStudent | secure-sms/app/admin_routes.py:57 | `get_or_404` finds the row with that id, or reports that no row has it |
| AdminRoutes.EditForm | secure-sms/app/admin_routes.py:59-60 | a GET of the edit view shows the decrypted address; when `get_fernet` or the decryption raises, the answer is a server error with that exception |
| AdminRoutes.EditShowsStoredAddress | secure-sms/app/admin_routes.py:60-64 | the edit form shows, stripped, the address a create or edit stored |
| AdminRoutes.StudentsNew | secure-sms/app/admin_routes.py:34-49 | a valid submission appends the stripped name and e-mail, the encrypted address text and the grade under the next key; a taken e-mail raises IntegrityError; anything else re-renders the form and changes nothing |
| AdminRoutes.StudentsEdit | secure-sms/app/admin_routes.py:55-70 | an unknown id is a 404; a GET prefills the decrypted address; a valid POST overwrites that row's columns the same way and keeps its id |
| AdminRoutes.StudentsList | secure-sms/app/admin_routes.py:22-28 | every listed object gets `address_plain` set to its decrypted address and keeps its row; the page fails exactly when some decryption raises |
| MainRoutes.Index | secure-sms/app/main_routes.py:13-15 | the root always redirects to the login page |
| MainRoutes.GradesOf | secure-sms/app/main_routes.py:31 | only non-empty grades are kept |
| MainRoutes.Occurrences | secure-sms/app/main_routes.py:32 | a count never exceeds the number of grades |
| MainRoutes.Histogram | secure-sms/app/main_routes.py:33-34 | there is one bar per label A, B, C, D, F |
| MainRoutes.OccurrencesCountRows | secure-sms/app/main_routes.py:31-32 | counting a grade in the filtered list is counting the students with that grade |
| MainRoutes.HistogramCountsStudents | secure-sms/app/main_routes.py:31-34 | each bar equals the number of students with that grade; students with no grade or an empty grade count nowhere |
| MainRoutes.HistogramTotal | secure-sms/app/main_routes.py:31-34 | the bars add up to the graded students less those whose grade is not a label, so the total is at most the number of graded students, with equality exactly when all grades are labels |
| MainRoutes.Dashboard | secure-sms/app/main_routes.py:18-35 | an anonymous visitor goes to login and one without `bio_ok` to the biometric step, with nothing computed; otherwise the chart of per-grade counts is shown |
| MainRoutes.SignInReachesDashboard | secure-sms/secure-sms/app/auth_routes.py:37-82 | password, then the issued code within five minutes, then the biometric POST, reaches the dashboard; after only the first step, or the first two, it is still refused |

The blueprint in secure-sms/secure-sms/app/api_routes.py has the same logic as the one in secure-sms/app/api_routes.py, and the `ApiRoutes` members model both. Its `api_login` is at lines 10-19, `role_required_api` at 21-30, `api_students` at 32-45 and `api_students_create` at 47-57.

## Left out

- The Fernet token format (AES-CBC with HMAC, a version byte, base64) is left out: it is a foreign library. The model keeps only its encrypt and decrypt behaviour, the decryption failure, and the round-trip guarantee `Authenticated`.
- Key decoding is left out: which keys the Fernet constructor rejects is a parameter, `KeyLoader`.
- bcrypt is left out. Hashing is a pair of functions with the guarantee `HashesVerify`, and the random salt is a parameter.
- `send_email` is left out: it is mail and console I/O. Its result does not affect the issued code, and the model issues the code regardless.
- The audit logger and log configuration are left out. Audit lines appear only as a ghost event list in `AuthBlueprint`.
- Flash categories and message storage are left out. Each response carries its flashed text.
- ApiStudents: `@jwt_required()` is left out. It answers 401 to a missing or invalid token before the role check runs; the model starts from the verified token's role claim.
- Template rendering, `send_file` and the JWT encoding are left out. The token is modelled by its claims.
- CSRF checking is left out; it is one flag on a POST.
- The `Email()` validator is left out. It is a library predicate and is passed in.
- Time is left out except for whole seconds. `datetime.utcnow().timestamp()` is a float, and the model compares integer seconds.
- CodeLivesFiveMinutes: holds only while the server's local UTC offset stays the same between issue and check. `.timestamp()` reads the naive `utcnow()` value as local time. Across a spring-forward change, a code issued in the last five minutes of the skipped hour gets an expiry below its issue time, and is refused until that hour ends. The model's clock is one integer line, so it does not capture this case.
- AuthBlueprint.session, CodeIsSingleUse, LogoutClearsOnlySignedIn: these hold for the session as the server last wrote it. The application keeps the session in Flask's default cookie, which is signed but not encrypted (secure-sms/app/__init__.py configures no server-side session). The model holds one session, and each request sees what the previous response wrote. Two things are not modelled: a client sending back an earlier cookie, and a client reading the issued code out of its cookie. By replaying the cookie from before the code step, a client can have the same code accepted again until it expires. By replaying a signed-in cookie after logout, a client stays signed in.
- The OTP draw is a parameter. Its randomness is not modelled.
- JSON values other than strings and null, and JSON bodies that are not objects, are left out. Their `.strip()` or `.encode()` failures are not modelled.
- Lone surrogate characters are left out: Dafny's `char` cannot hold them, so the UTF-8 codec's treatment of them is not modelled.
- The teacher views (list, create, edit, delete) and `students_delete` are left out except for their role sets. Their bodies are CRUD without encryption or session logic.
- `backup_page` is left out except for its role set; it only renders a template.
- The database file and the tables are separate. Restoring a backup replaces the bytes of `sms.db` but not the rows the other views see until the application restarts, which the restore message asks for.
- `AdminRoutes.StudentsList` and `ApiRoutes.SerializeStudents` take the cipher `get_fernet()` returns, not the key cache. They do not model that the first `decrypt_text` of a request may raise ValueError for a malformed key, or that it may load the cache; `Encryption.ResolveIdempotent` shows that every later call in the request returns the same cipher.
- `AdminRoutes.StudentsList` does not model the query's `order_by(id.desc())`: the array holds the objects in the order the query returns them.
- `register` lets the user pick any of the three roles, including admin. The model keeps this as written.
- The application factories, the configuration, the database initialisation script and the test suites are not part of this model.
