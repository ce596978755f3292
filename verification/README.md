# Njala past-questions API — a Dafny model of its core

This project models the request-handling core of the Njala past-questions
web API, an ASP.NET service where students download past examination
papers and staff manage them. It covers these parts:

- **Accounts.** Register, log in, two-factor login, Google login, and
  e-mailed one-time codes (OTPs).
- **Bearer tokens.** The claims each issued token carries.
- **Document catalogue.** Filtering and paging, and the "five most recent
  uploads" view.
- **User service.** Listing, reading, creating, updating, deleting and CSV
  export of users, plus the admin and student controllers built on it.
- **Super-admin console.** Statistics, promotion, admin creation, document
  edits and cascaded deletion.
- **Global statistics.**
- **Student dashboard.** Download counting and the dashboard summary.

The database is an immutable `Store` with four tables: users, OTPs,
documents and downloads. Each endpoint is a pure function from the store
and the request to a new store and an HTTP-like `Reply`. The model takes
as parameters whatever the code gets from outside:

- the current time, in seconds;
- freshly drawn Guids and random numbers;
- the result of checking a password;
- the result of validating a two-factor code or a Google credential;
- whether a file exists on disk.

The modules follow the program's structure:

- **Foundations.**
  - `Wrappers`: option values.
  - `Text`: ASCII case folding, substring search, splitting, white space,
    decimal digits.
  - `Guids`: Guid text formats and `Guid.TryParse`.
  - `Listing`: LINQ's `Where`, `Count`, `Skip`, `Take`, `OrderByDescending`
    and `Take(n)`, and the int32 paging arithmetic.
- **Data.**
  - `Models`: the entities and the store.
  - `Identity`: the parts of ASP.NET Identity the code depends on:
    `FindByEmailAsync`, the password and user validators, `CreateAsync`,
    `UpdateAsync`, `AddToRoleAsync` and the seeded roles.
  - `Http`: replies and faults.
  - `Jwt`: token claims.
  - `Otp`: the one-time-code table.
- **Controllers and services.** One module each: `Auth`, `Documents`,
  `Users`, `Admins`, `Students`, `SuperAdmin`, `Stats`,
  `StudentDashboard` and `Dashboard`.

Where the code differs from what one might expect, the model follows the
code:

- Login does not check that the e-mail address is confirmed.
- The OTP code is drawn from `[100000, 999998]`, because the upper bound of
  `Random.Next` is exclusive.
- Deleting a document also deletes its downloads, because the
  document-to-download foreign key is required.
- `UserService.UpdateUserAsync` writes the e-mail address without
  re-normalising it. `FindByEmailAsync` therefore still finds the user
  under the old address, as `Users.UpdateKeepsLookupKey` states.
- `AdminController.CreateAdmin` returns the whole stored user.
- The student dashboard summary of an unknown user is `Ok(null)`, which
  ASP.NET's default output formatters send as 204 No Content.
- `ApplicationUser.FullName` is a required, non-nullable string, so its
  column is NOT NULL. Google sign-in copies the payload's name into it
  unchecked. For a payload without a name, the insert after Identity's
  validation throws: the reply is 500 and nothing is stored.
- Some lookups fold case and others do not:
  - The admin and student listings compare roles ignoring case. The
    single-user lookups and the statistics compare them exactly
    (`Admins.ListedButNotFound` and `Stats.StudentsBelowListing`).
  - The super-admin "create admin" endpoint checks for an existing e-mail
    exactly, while Identity checks ignoring case. A case variant of a known
    address gets past the first check and is then refused by Identity
    (`SuperAdmin.CaseVariantRefused`).
  - The statistics and the "create admin" check run as SQL `==` in the
    database. The two observations above about them hold under a
    case-sensitive collation, the one the model assumes (see "Left out").
    Under SQL Server's default case-insensitive collation those
    comparisons ignore case, and neither observation holds.
- The user listing pages in the database, which refuses a negative
  `OFFSET` and a `FETCH` of fewer than one row. A page number or page size
  below one therefore makes the admin and student listings answer 500.

## Model

| member | source | states |
|---|---|---|
| Text.ContainsIffOccurs | Controllers/DocumentController.cs:36-38 | the substring search used by the search filter holds exactly when the term occurs at some position of the text |
| Text.LowerEqIffUpperEq | Services/UserService.cs:27-28 | comparing roles by lower-casing both sides identifies the same strings as comparing them case-insensitively |
| Text.SixDigitCode | Controllers/AuthController.cs:184 | every drawn OTP number renders as exactly six decimal digits that read back as the number |
| Text.DecimalStringInjective | Controllers/AuthController.cs:184 | two different draws never render as the same code |
| Guids.FormatRoundTrip | Controllers/StudentDashboardController.cs:27-33 | the text `Id.ToString()` puts in a token parses back with `Guid.TryParse` to the same Guid |
| Guids.FormatInjective | Services/JwtTokenService.cs:34 | distinct Guids have distinct text, so distinct token ids give distinct `jti` claims |
| Listing.WhereIfChain | Controllers/DocumentController.cs:35-47 | applying the optional filters one after another keeps exactly the items that pass every filter that is switched on, in their original order |
| Listing.PageIsSlice | Controllers/DocumentController.cs:51-54 | the page is the slice of the filtered list that starts at `(page-1)*pageSize` (clamped to the list), with at most `pageSize` items |
| Listing.PagePartition | Controllers/DocumentController.cs:51-54 | consecutive pages cover the list without gaps or overlaps: page p+1 starts where page p ends |
| Listing.PageOfFilter | Controllers/DocumentController.cs:35-54 | every item on a page passes the filters, and the page is a subsequence of the full list |
| Listing.PagePastEnd | Controllers/DocumentController.cs:51-54 | a page that starts at or beyond the number of matches is empty |
| Listing.OffsetOverflowRepeatsFirstPage | Controllers/DocumentController.cs:52 | with the int32 product as written, page 1073741825 of size 4 wraps to offset 0 and returns the first four items again, where the corrected page is empty |
| Listing.OffsetAgreesWithoutOverflow | Controllers/DocumentController.cs:52 | when the product fits in 32 bits, the as-written offset equals the mathematical one |
| Listing.TopNSpec | Controllers/SuperAdminController.cs:108-110 | taking the first n after a stable descending sort gives at most n items, each from the input, ordered by key, with no omitted item ranking above a kept one |
| Listing.CountDisjoint | Controllers/StatsController.cs:24-31 | two counts over mutually exclusive conditions add up to at most the table size, and to less when some row meets neither condition |
| Listing.CountUpdate | Controllers/SuperAdminController.cs:59-67 | changing one row changes a count by exactly the change in that row's verdict |
| Listing.CountAppend | Controllers/StudentDashboardController.cs:73-81 | appending a row adds one to the count exactly when the row meets the condition |
| Identity.FindByEmail | Controllers/AuthController.cs:63 | a found user's normalised e-mail is the upper-cased address looked up |
| Identity.FindByEmailSpec | Controllers/AuthController.cs:39 | the lookup finds a user exactly when some user's normalised e-mail equals the upper-cased address, and then finds the first such user |
| Identity.PasswordPolicy | Program.cs:23-27 | a password passes exactly when it has at least six characters, is not all white space, and contains a lower-case letter; digits, upper case and symbols are not required |
| Identity.CreateAsync | Controllers/AuthController.cs:50-53 | success appends the stored user to the table; failure carries at least one error |
| Identity.CreateAsyncAccepts | Program.cs:23-27 | creation succeeds exactly when the password and the user both validate; password errors are the ones reported first |
| Identity.CreateRejectsKnownEmail | Program.cs:27 | an address already taken, in any letter case, makes creation fail; when the password and address are otherwise fine, the only error is the duplicate e-mail |
| Identity.CreateKeepsKeys | Program.cs:27 | a successful creation keeps user ids and normalised e-mails unique |
| Identity.UpdateKeepsKeys | Controllers/AuthController.cs:216-221 | an update through the user manager keeps the keys unique, stores the user when it validates, and leaves every other row alone |
| Identity.FindRole | Program.cs:128-134 | a role name resolves to one of the three seeded roles, compared ignoring case, or to nothing when it matches none |
| Identity.SeededRolesFound | Program.cs:128-134 | "Student", "Admin" and "SuperAdmin" are all resolvable |
| Identity.CreateWithRole | Services/UserService.cs:84-89 | creation errors are passed on unchanged; a created user is stored with the resolved role, or, when the role does not exist, stays stored without one and the call faults |
| Identity.GrantNewest | Services/UserService.cs:89 | granting a role to a just-created user never rejects; it faults exactly when the role does not exist, and otherwise sets the membership to that role |
| Jwt.GenerateToken | Services/JwtTokenService.cs:24-45 | a token carries nine claims of the fixed kinds, in order, and expires five hours after issue |
| Jwt.TokenClaims | Services/JwtTokenService.cs:22-35 | looking up each claim kind returns the user's id text, e-mail, full name, main role (the first role, or "Student"), and the token id |
| Jwt.TokenClaimKindsDistinct | Services/JwtTokenService.cs:24-35 | no claim kind appears twice in a token |
| Jwt.FindFirstAt | Controllers/StudentDashboardController.cs:29 | claim lookup returns the value of the first claim of the requested kind |
| Jwt.TokensDifferByJti | Services/JwtTokenService.cs:34 | two tokens issued with different token ids differ |
| Otp.Latest | Controllers/AuthController.cs:176-179 | the newest matching code is one with the latest expiry, the first in storage order among ties; there is none exactly when nothing matches |
| Otp.LatestUnique | Controllers/AuthController.cs:178 | there is only one newest matching code |
| Otp.Request | Controllers/AuthController.cs:176-195 | a request is refused exactly when a code for the same target and kind has more than five minutes left; otherwise a six-digit code in the drawn range, expiring in ten minutes, is appended |
| Otp.Verify | Controllers/AuthController.cs:205-214 | verification succeeds exactly when the newest unused code for the target and kind is unexpired and equal to the one given; it marks that record used and changes nothing else |
| Otp.RequestThenVerify | Controllers/AuthController.cs:184-211 | a freshly issued code is the one verification examines: it is accepted up to and including its expiry instant and refused after it |
| Otp.ResendBlockedForWindow | Controllers/AuthController.cs:181-182 | after a code is issued at time t, another request for the same target and kind at t2 >= t is refused exactly when t2 is less than five minutes after t |
| Otp.NoReuse | Controllers/AuthController.cs:206-213 | once a record has been confirmed, no later verification, whatever code or time is given, confirms that same record |
| Otp.VerifySpendsOne | Controllers/AuthController.cs:206-214 | a successful verification lowers the number of unused codes for the target and kind by exactly one |
| Otp.VerifiedStaysVerified | Controllers/AuthController.cs:194-213 | issuing only appends, and a verification never turns a used code back into an unused one |
| Auth.SignIn | Controllers/AuthController.cs:76-93 | signing in stamps only the user's last-login time, and answers with a session whose user id, main role and token expiry are those of the user |
| Auth.Register | Controllers/AuthController.cs:37-58 | a known e-mail gives "Email already exists" and changes nothing; any failure leaves the store as it was; success appends the new student, with membership in the Student role |
| Auth.RegisterSucceeds | Controllers/AuthController.cs:39-53 | registration succeeds exactly when the e-mail is unknown and Identity accepts the password and the user |
| Auth.RegisteredIsFound | Controllers/AuthController.cs:39-57 | after a successful registration, looking up the e-mail finds the new user |
| Auth.RegisterKeepsValid | Controllers/AuthController.cs:42-55 | registration keeps user ids, normalised e-mails and document ids unique |
| Auth.Login | Controllers/AuthController.cs:61-94 | an unknown e-mail or a wrong password gives 401 with no change; two-factor users get a "2FA required" answer with no change; everyone else is signed in |
| Auth.SignInKeepsValid | Controllers/AuthController.cs:76-77 | stamping the last login keeps the store's keys unique |
| Auth.LoginKeepsValid | Controllers/AuthController.cs:61-94 | a login keeps the store's keys unique |
| Auth.VerifyTwoFactor | Controllers/AuthController.cs:139-171 | an unknown e-mail gives "Invalid user." and an invalid code gives "Invalid 2FA code.", both 400 with no change; a valid code stamps the last login and answers with a session for that user, carrying its first role and the token issued over the stamped user |
| Auth.GooglePasswordPasses | Controllers/AuthController.cs:112 | the random password generated for Google accounts always satisfies the password policy |
| Auth.GoogleLogin | Controllers/AuthController.cs:97-136 | no credential gives a server error with no change; a known e-mail signs that user in: only its last login is stamped, and the session carries that user's id, its first role and the token issued over the stamped user; any 200 carries a session |
| Auth.GoogleSignUp | Controllers/AuthController.cs:102-123 | any 200 from signing up an unknown Google user carries a session; a payload without a name never gets 200 and stores nothing, and it gets the NOT NULL server error exactly when Identity would accept the account |
| Auth.GoogleSignUpProvisions | Controllers/AuthController.cs:102-123 | signing up succeeds exactly when Identity accepts the new account and the payload has a name; then a student account with Student membership is appended under the new id, stamped with the sign-in time, and the session reports the Student role |
| Auth.GoogleSignUpKeepsValid | Controllers/AuthController.cs:102-123 | a Google sign-up keeps the store's keys unique |
| Auth.GoogleLoginKeepsValid | Controllers/AuthController.cs:97-136 | a Google login keeps the store's keys unique |
| Auth.RequestOtp | Controllers/AuthController.cs:174-200 | the endpoint answers 400 with no change exactly when the table refuses; otherwise it stores the new code and mails "Your OTP is: " followed by the code to the target |
| Auth.MailedCodeVerifies | Controllers/AuthController.cs:184-211 | the code read out of the mail verifies at any time up to its expiry ten minutes later, and not after |
| Auth.VerifyOtp | Controllers/AuthController.cs:203-224 | a failed check gives "Invalid or expired OTP" with no change; a passed check spends the code, leaves documents and downloads alone, and leaves the users alone when no account holds the target e-mail |
| Auth.VerifyOtpConfirms | Controllers/AuthController.cs:216-221 | the store stays valid; after a successful verification only the account holding the target e-mail may change, and it is confirmed when it passes Identity validation |
| Documents.ApplyFiltersSpec | Controllers/DocumentController.cs:35-47 | the filtered list holds exactly the documents matching the search term, course code and year that were given, in storage order |
| Documents.GetAllDocuments | Controllers/DocumentController.cs:24-63 | the reply echoes page and page size, and holds at most `pageSize` documents |
| Documents.GetAllDocumentsSpec | Controllers/DocumentController.cs:35-62 | every returned document matches the query and is stored, in storage order; the total counts all matches; the page is the run of matches from the clamped offset, holding `pageSize` of them or all that remain |
| Documents.SearchTermOccurs | Controllers/DocumentController.cs:35-39 | a document that passes a non-blank search filter contains the term, ignoring case, at some position of its title or of its description |
| Documents.GetById | Controllers/DocumentController.cs:65-70 | 404 exactly when no stored document has that id; otherwise the answer is a stored document with that id |
| Documents.NewestSpec | Controllers/SuperAdminController.cs:108-110 | the recent list holds the min(5, n) latest uploads, newest first, each stored and none more often than it is stored, with no omitted document uploaded later than a listed one |
| Documents.Recent | Controllers/SuperAdminController.cs:106-122 | the summaries are those of the newest documents, in the same order, with their ids, titles, course codes, years and upload dates, and they summarise a part of the catalogue that repeats no document more often than it is stored |
| Documents.RepeatIsNoPart | Controllers/SuperAdminController.cs:108-110 | listing a document twice when it is stored once does not summarise a part of the catalogue |
| Users.FilterUsersSpec | Services/UserService.cs:27-33 | the filtered users are exactly those whose role equals the requested role ignoring case, and whose name or e-mail contains the search term exactly |
| Users.GetAllUsers | Services/UserService.cs:23-56 | a server error exactly when the page number or page size is below one, since the database refuses that paging; otherwise the reply echoes page and page size and holds at most `pageSize` users |
| Users.GetAllUsersSpec | Services/UserService.cs:25-55 | when the paging is accepted, the total counts the matching users and the items are the projections of the matching page, each a stored user that passes the filters |
| Users.GetAllUsersInRole | Services/UserService.cs:27-33 | when a role is given and the paging is accepted, each listed user's role equals it ignoring case |
| Users.GetUserById | Services/UserService.cs:59-71 | nothing is returned exactly when the id is unknown; otherwise the id, name, e-mail and role of that user are returned |
| Users.CreateUser | Services/UserService.cs:73-98 | Identity's errors become a thrown failure with no change; an unknown role throws after the user is stored; success stores the user with role membership and returns its projection |
| Users.CreateUserStampsRole | Services/UserService.cs:75-89 | a created user carries the requested role text and membership in the matching seeded role |
| Users.UpdateUser | Services/UserService.cs:100-119 | an unknown id gives nothing and no change; otherwise the returned projection carries the new name, e-mail and role |
| Users.UpdateUserFrame | Services/UserService.cs:102-118 | an update overwrites only the name, e-mail, user name and role; the normalised e-mail, flags, last login and role membership stay as they were |
| Users.UpdateKeepsLookupKey | Services/UserService.cs:105-110 | since the normalised e-mail is not rewritten, look-ups by e-mail find the same users as before and the keys stay unique |
| Users.DeleteUser | Services/UserService.cs:121-130 | deletion reports whether the id was known, and an unknown id changes nothing |
| Users.DeleteUserRemovesExactly | Services/UserService.cs:123-129 | a deletion removes exactly the user with that id and keeps the others in order |
| Users.GetInRole | Controllers/AdminController.cs:38-44 | any 200 carries the projection of a stored user with that id and the requested role; with unique ids, 200 exactly when such a user has exactly that role, and 404 otherwise |
| Users.UpdateAs | Controllers/AdminController.cs:72-78 | an unknown id gives 404 with no change; otherwise the updated projection is returned |
| Users.UpdateAsThenGet | Controllers/AdminController.cs:75-77 | after updating a user with a role, reading it back in that role succeeds |
| Users.DeleteStep | Controllers/AdminController.cs:82-85 | deletion answers 204 exactly when the id is known, whatever that user's role, and 404 with no change otherwise |
| Users.CsvLines | Services/UserService.cs:136-141 | the export has the header first and then one line per user, in storage order |
| Users.ExportCsvLength | Services/UserService.cs:132-144 | the export starts with the header and is as long as all lines plus one line terminator each |
| Users.CsvRowFields | Services/UserService.cs:140 | a row whose values contain no comma splits back into its three values |
| Users.CsvRowUnescaped | Services/UserService.cs:140 | a full name containing a comma yields a row of four fields, because values are not quoted |
| Admins.GetAdmins | Controllers/AdminController.cs:28-34 | a server error exactly for a page number or size below one; otherwise the total counts users whose role is "admin" ignoring case, and every listed user has such a role |
| Admins.GetAdmin | Controllers/AdminController.cs:38-44 | an admin is returned exactly when the id is known and its role is exactly "Admin" |
| Admins.ListedButNotFound | Controllers/AdminController.cs:28-44 | a user with role "admin" is the whole first page of the admin listing but is not found by id |
| Admins.CreateAdmin | Controllers/AdminController.cs:48-68 | a known e-mail gives "Email already exists" with no change; creation errors give 400; success stores the user with Admin membership and returns it |
| Admins.CreatedAdminIsFound | Controllers/AdminController.cs:48-68 | an admin just created can be read back by id |
| Admins.UpdateAdmin | Controllers/AdminController.cs:72-78 | an update with role "Admin" makes the user readable as an admin |
| Admins.DeleteAdmin | Controllers/AdminController.cs:82-85 | deletion answers 204 exactly when the id is known, and then only that user is removed |
| Students.GetStudents | Controllers/StudentController.cs:34-38 | a server error exactly for a page number or size below one; otherwise the total counts users whose role is "student" ignoring case, and every listed user has such a role |
| Students.GetStudent | Controllers/StudentController.cs:42-47 | a student is returned exactly when the id is known and its role is exactly "Student" |
| Students.CreateStudent | Controllers/StudentController.cs:51-56 | the role is forced to "Student"; a created user is answered with 201 and carries Student membership; a failure becomes a server error |
| Students.UpdateStudent | Controllers/StudentController.cs:60-66 | an unknown id gives 404 with no change; otherwise the updated projection is returned |
| Students.DeleteStudent | Controllers/StudentController.cs:70-74 | deletion answers 204 exactly when the id is known, and then only that user is removed |
| SuperAdmin.GetStats | Controllers/SuperAdminController.cs:28-40 | the statistics are the sizes of the users, documents and downloads tables |
| SuperAdmin.GetUsers | Controllers/SuperAdminController.cs:43-56 | every user is listed, as its projection, in storage order |
| SuperAdmin.GetUsersIsWholeListing | Controllers/SuperAdminController.cs:43-56 | the console's list is the user service's unfiltered first page when the page has room for the whole table, and the total is the table size |
| SuperAdmin.PromoteToAdmin | Controllers/SuperAdminController.cs:59-67 | an unknown id gives 404 with no change; otherwise only that user's role text becomes "Admin" |
| SuperAdmin.PromoteThenGetAdmin | Controllers/SuperAdminController.cs:59-67 | after a promotion the store stays valid and the user is found as an admin |
| SuperAdmin.PromoteKeepsTokenRole | Controllers/SuperAdminController.cs:63-64 | promotion does not change role membership, so tokens issued later still carry the old main role |
| SuperAdmin.DeleteUser | Controllers/SuperAdminController.cs:70-78 | deletion of a known id lowers the user count by one; an unknown id gives 404 with no change |
| SuperAdmin.CreateAdmin | Controllers/SuperAdminController.cs:81-103 | an exact e-mail match gives 400 with no change; the endpoint never answers with a server error; it succeeds exactly when the e-mail is free and Identity accepts the account, which is then stored with Admin membership |
| SuperAdmin.CaseVariantRefused | Controllers/SuperAdminController.cs:83-99 | a case variant of a known e-mail passes the exact check but is refused by Identity, leaving the store unchanged |
| SuperAdmin.GetRecentDocuments | Controllers/SuperAdminController.cs:106-122 | five summaries, or all documents when there are fewer, newest upload first, each the summary of a stored document and none listed more often than stored, and no document left out is newer than one listed |
| SuperAdmin.UpdateDocument | Controllers/SuperAdminController.cs:125-137 | an unknown id gives 404 with no change; otherwise the stored document takes the new title, description, course code and year |
| SuperAdmin.UpdateDocumentFrame | Controllers/SuperAdminController.cs:127-134 | an update keeps the document's id, file, uploader and upload date, and every other row |
| SuperAdmin.DeleteDocument | Controllers/SuperAdminController.cs:140-149 | an unknown id gives 404 with no change; otherwise the document and all its downloads are removed |
| SuperAdmin.DeleteDocumentExactly | Controllers/SuperAdminController.cs:140-149 | after deletion exactly the other documents and exactly the downloads of other documents remain, in order, with ids still unique |
| Stats.GetGlobalStats | Controllers/StatsController.cs:21-46 | the admin count is the number of users whose role is exactly "Admin" or "SuperAdmin", the student count the number whose role is exactly "Student"; together they never exceed the number of users, and equal it exactly when every role is one of the three |
| Stats.StudentsBelowListing | Controllers/StatsController.cs:29-31 | the exact student count never exceeds the case-insensitive student listing's total, and is below it when some role is a case variant of "Student" |
| Stats.PromoteMovesCounts | Controllers/StatsController.cs:24-31 | promoting a student moves exactly one user from the student count to the staff count |
| Stats.StatsConsistent | Controllers/StatsController.cs:34-37 | the global statistics and the super-admin statistics agree on documents and downloads, and the role counts fit within the user total |
| StudentDashboard.GetUserId | Controllers/StudentDashboardController.cs:27-33 | a token without an "id" claim yields no id, and any id yielded is the first "id" claim parsed as a Guid |
| StudentDashboard.TokenNamesUser | Controllers/StudentDashboardController.cs:27-33 | a token issued for a user yields that user's id |
| StudentDashboard.GetDownloadCount | Controllers/StudentDashboardController.cs:36-41 | a server error ("Invalid token") exactly when the token has no parsable id claim; otherwise the number of download records whose user is the caller |
| StudentDashboard.GetRecentDocuments | Controllers/StudentDashboardController.cs:51-64 | five summaries, or all documents when there are fewer, newest upload first, each the summary of a stored document and none listed more often than stored, and no document left out is newer than one listed |
| StudentDashboard.DownloadDocument | Controllers/StudentDashboardController.cs:67-88 | an unknown document gives 404 with no change; a bad token gives a server error with no change; for a known document and a parsable caller id, exactly one download record for the caller is appended before the file is looked up, and 200 is returned exactly when the file exists |
| StudentDashboard.DownloadIsCounted | Controllers/StudentDashboardController.cs:73-81 | for a stored document and a token issued to a user, downloading adds one row, raises that user's count by one, and leaves other users' counts and the document count unchanged |
| Dashboard.GetSummary | Services/DashboardService.cs:15-39 | the id is malformed exactly when it does not parse; no user exactly when it parses to an unknown id; otherwise the summary holds the document total, the min(5, n) newest uploads with their uploaders, and that user's last login |
| Dashboard.GetStudentSummary | Controllers/DashboardController.cs:18-26 | 401 exactly when the name-identifier claim is missing or empty; a server error exactly for a malformed Guid; 204 No Content exactly when the Guid names no user, since `Ok(null)` is sent that way; a returned summary counts all documents and is exactly the service's summary for the claimed id |
| Dashboard.SignInThenSummary | Services/DashboardService.cs:37 | after signing in at time t, the summary requested with the issued token reports t as the last login |

## Left out

- Password hashing, token signing and serialisation, and the HMAC key are
  left out. A token is its list of claims and its expiry. Mapping inbound
  claims to `ClaimTypes` is taken as the identity.
- Checking a password, validating a two-factor code and validating a Google
  credential are parameters of the model. So are the clock, `Guid.NewGuid`,
  `Random` and whether a file exists.
- Sending mail and SMS is left out. `Auth.RequestOtp` returns the message it
  would send, and a failed send is not modelled.
- `Guid.TryParse` is modelled for the "D" and "N" formats only. The "B",
  "P" and "X" forms and surrounding white space are not modelled.
- The database collation is not modelled as a setting. The model assumes a
  case-sensitive collation, so SQL `==` and the users search's `Contains`
  compare exactly: `Stats.IsStaff`, `Stats.IsStudent`,
  `SuperAdmin.EmailTaken`, `Otp.Matches` and `Users.SearchAccepts`.
  `ToLower` and `OrdinalIgnoreCase` fold ASCII case only, and non-ASCII
  case rules are not modelled.
- In the document listing, which pages an in-memory list, a page number
  below one gives a negative offset, and `Skip` treats it as zero. The
  model clamps the offset the same way.
- Sequence order stands for an order the database does not promise. The
  users listing pages without `OrderBy`, and the CSV export, the
  super-admin user list and the document listing
  (`DocumentService.GetAllAsync`, which the document search filters and
  pages in memory) read the table unordered. For these the model uses
  the order of its sequences, where new rows are appended, and calls it
  "storage order"; SQL Server may return the rows in another order, for
  example by the clustered Guid key. Likewise, ties in `OrderByDescending`
  (the newest one-time code, the newest documents) are resolved in favour
  of the earlier element of the sequence (`Otp.Latest`, `Listing.TopN`),
  which the database does not promise either.
- Users.GetAllUsers: refuses the paging on the offset computed over
  unbounded integers. As written, the int32 product can also wrap to a
  negative offset for a very large page number, which the database would
  refuse too. That case is not modelled.
- Paging everywhere uses the corrected offset, computed over unbounded
  integers (`Listing.Page`); the int32 product as written is modelled only
  by `Listing.PageAsWritten`, for the finding below.
- Authorisation attributes, model-binding validation (400 for malformed
  bodies) and the exception middleware are left out. A thrown exception is
  shown as a server error.
- Refresh tokens, password reset and the audit log are not part of this
  model. Neither is document upload (`DocumentService.AddAsync`), nor the
  document controller's file download and delete
  (`DocumentService.DeleteAsync`), because their work is reading, writing
  and deleting files on disk. The document controller's reads through
  `DocumentService.GetAllAsync` and `GetByIdAsync` are modelled by
  `Documents.GetAllDocuments` and `Documents.GetById`.
- `Extensions/ClaimsPrincipalExtensions.cs` is not part of this model,
  because no modelled endpoint calls it.
- `StudentDashboard.GetDocumentsCount` has no contract beyond its body,
  because it only returns the size of the documents table.
- The bytes of the served file, `Path.GetFileName` and the UTF-8 encoding
  of the CSV export are left out. The export is modelled as text.
- The anonymous-object field names and the JSON shape of replies are not
  modelled.
- OTP rows carry no surrogate id. They are identified by their position.
- Times are whole seconds. The resend rule compares fractional minutes
  (`TotalMinutes > 5`), which the model states as more than 300 seconds.
- DTO default values apply before the model is called: page 1, size 10,
  and empty strings for missing text.

## Findings

| source | as written | input that shows it | evidently intended | confidence | as-written member | corrected member |
|---|---|---|---|---|---|---|
| Controllers/DocumentController.cs:52 | `Skip((page - 1) * pageSize)` multiplies in 32-bit ints, which wrap silently. The same product appears at Services/UserService.cs:38 | page = 1073741825, pageSize = 4: the product 2^32 wraps to 0, so the first page is returned again instead of an empty page | page p starts at item (p-1)*pageSize, and a page past the end is empty | not executed | Listing.OffsetOverflowRepeatsFirstPage | Listing.PageIsSlice |
