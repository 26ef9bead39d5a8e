# SAPH library manager: a Dafny model of its accounts, libraries and uploads

SAPH is a small library-management web application. An Express server keeps
two MySQL tables, `users` and `libraries`, behind a JWT-protected JSON API.
A React client registers accounts, lists a user's libraries, switches the
active one and creates new ones with an uploaded cover image.

This project models the core of that system in Dafny:

- `helper.dfy` (module `Helper`): the response envelope, and the email and
  password validators every route shares.
- `auth_middleware.dfy` (`AuthMiddleware`): token extraction and verification,
  then the role check.
- `auth_routes.dfy` (`AuthRoutes`): register, login, profile read and update,
  the superadmin's user list and status change. The `users` table is the
  class `UserStore`.
- `libraries_routes.dfy` (`LibrariesRoutes`): list, active, create, switch,
  update and delete over the `libraries` table, the class `LibraryTable`.
  The table invariant is unique ids, at most one active library per user,
  and an active library for every user who owns any. Each handler keeps it.
- `upload_routes.dfy` (`UploadRoutes`): multer's file filter and size limit,
  the stored file name (`path.extname` on POSIX) and the URL answered.
- `breadcrumb.dfy` (`BreadCrumb`): the path segments, their labels and the
  crumbs with their links.
- `register_page.dfy` (`RegisterPage`): the registration form's checks, its
  payload, and its component state (class `RegisterPageState`).
- `create_library_modal.dfy` (`CreateLibraryModal`): the modal's image and
  name checks, its payload, and its component state (class
  `CreateLibraryForm`).
- `home_page.dfy` (`HomePage`): the home page's active library, its local
  update after a switch, the switch button and the "Available to Switch"
  counter.
- `common.dfy` (`Common`) and `text.dfy` (`Text`) hold the shared vocabulary.
  That is JSON body members (`Field`: missing, `null` or a string),
  JavaScript truthiness, what an axios call yields, and the JavaScript
  string operations the code uses (`trim`, `length` in UTF-16 units,
  `split`/`join`, `indexOf`, `toLowerCase`).

Password hashing (`bcrypt.hash`, `bcrypt.compare`), token signing and
verification (`jwt.sign`, `jwt.verify`) and `uuidv4` are function
parameters (`hash`, `matches`, `sign`, `verify`, `uuid`). The MySQL tables
are sequences of rows in insertion order. `AUTO_INCREMENT` and `created_at`
are the counters `nextId` and `clock`. An async client handler is split at
its `await` into a method that issues the request and one that takes the
answer.

Several behaviours of the code are stated as lemmas:

- the page's email check is looser than the server's (`PageLooserThanServer`);
- the breadcrumb's singular rule skips the label table
  (`SingularCaseSkipsTable`);
- multer's type test is case-sensitive on the MIME type
  (`UpperCaseMimeTypeRefused`) and unanchored (`UnanchoredExtensionAccepted`);
- the Authorization header's first word is never compared with "Bearer"
  (`AnySchemeWordIsAccepted`).

## Model

| member | source | states |
|---|---|---|
| Common.MessageOr | client/src/pages/Register.tsx:108-112 | `err.response?.data?.message \|\| fallback`: the server's message when it is present and non-empty, the page's fallback otherwise |
| Helper.CreateResponse | server/helper.js:1-7 | the body carries exactly the message, the success flag and the data, the data null unless given |
| Helper.Respond | server/helper.js:1-7 | the reply has the status given and a body of exactly the message, flag and data |
| Helper.Fail | server/helper.js:1-7 | a rejection has the status and message given, `success: false` and null data |
| Helper.FailMessageShown | client/src/pages/Register.tsx:108-112 | a page shows a rejection's own message, or its fallback when that message is empty |
| Text.Trim | server/librariesRoutes.js:103 | `trim()` yields a string that neither starts nor ends with JavaScript white space, no longer than its input |
| Text.TrimRemovesOnlyPadding | server/librariesRoutes.js:103 | `trim()` removes only padding: the result is the slice of the input between a blank prefix and a blank suffix |
| Text.TrimEmptyIffBlank | server/librariesRoutes.js:103 | `s.trim() === ""` exactly when every character of `s` is white space |
| Text.JsLength | server/helper.js:17 | `length` counts UTF-16 units: between one and two per character, one each when all are in the basic plane |
| Text.JsLengthAppend | server/helper.js:17 | `length` of a concatenation is the sum of the two lengths, so the count is fixed character by character |
| Text.AstralCharCountsTwice | server/helper.js:17 | a character above U+FFFF (a surrogate pair) adds two to `length` |
| Text.Split | client/src/components/BreadCrumb.tsx:6 | `split(sep)` gives at least one piece, and no piece holds `sep` |
| Text.JoinSplit | client/src/components/BreadCrumb.tsx:6 | joining the pieces of a split with the separator gives the input back |
| Text.SplitJoin | client/src/components/BreadCrumb.tsx:6 | splitting the join of pieces without the separator gives the pieces back |
| Text.DigitsAreNumeric | client/src/components/BreadCrumb.tsx:35 | `Number(s)` is not NaN for a run of decimal digits |
| Text.ExponentIsNumeric | client/src/components/BreadCrumb.tsx:35 | `Number("1e3")` is not NaN: an exponent form also counts as a number |
| Text.TrailingLetterIsNotNumeric | client/src/components/BreadCrumb.tsx:35 | `Number("12a")` is NaN: the whole string must be one literal |
| Text.ExponentAtIsFirst | client/src/components/BreadCrumb.tsx:35 | `Number` splits a literal at its first 'e' or 'E': none comes before that position, and one is at it unless it is the end |
| Text.Lower | server/uploadRoutes.js:23 | `toLowerCase()` maps each character and keeps the length |
| Helper.IsValidEmailMatchesPattern | server/helper.js:10-13 | `isValidEmail` holds exactly for strings matched by `^[^\s@]+@[^\s@]+\.[^\s@]+$`: a run, '@', a run, '.', a run, no run holding white space or '@' |
| Helper.ValidEmailMatches | server/helper.js:10-13 | every accepted email matches the pattern |
| Helper.MatchIsValidEmail | server/helper.js:10-13 | every string the pattern matches is accepted |
| Helper.ValidatePassword | server/helper.js:16-21 | null exactly when the password is at least 8 UTF-16 units long, otherwise "Password must be at least 8 characters long" |
| Helper.SanitizeUser | server/helper.js:24-29 | null stays null; otherwise every key but `password`, each with its value |
| Helper.SanitizeUserForgetsPassword | server/helper.js:24-29 | the result does not depend on the password, and sanitizing twice changes nothing more |
| AuthMiddleware.BearerToken | server/authMiddleware.js:6-7 | the token is the non-empty second space-separated piece of the header, taken from after its first space |
| AuthMiddleware.AnySchemeWordIsAccepted | server/authMiddleware.js:7 | any first word followed by a token yields that token, with or without more pieces after it |
| AuthMiddleware.MissingSecondPieceIsRejected | server/authMiddleware.js:7-11 | a one-word header, or a header with two spaces after its first word, yields no token |
| AuthMiddleware.AuthenticateToken | server/authMiddleware.js:4-19 | 401 "Access token required" without a token; 403 "Invalid or expired token" when it does not verify; and on with the verified claims exactly when it does |
| AuthMiddleware.AuthorizeRoles | server/authMiddleware.js:21-34 | 401 with no caller; on exactly when the caller's role is listed, with the same caller; 403 otherwise |
| AuthMiddleware.GuardOutcomes | server/authRoutes.js:282-286 | chained, the two reach the handler exactly for a verified token with a listed role; they never answer "User not authenticated"; 401 only for a missing token |
| AuthRoutes.NormalizeRole | server/authRoutes.js:74 | the stored role is "superadmin" exactly when that string is asked for, and "admin" otherwise |
| AuthRoutes.FindByEmail | server/authRoutes.js:16-21 | a row with that email, or null exactly when no row has it |
| AuthRoutes.FindById | server/authRoutes.js:24-30 | a row with that id, or null exactly when no row has it |
| AuthRoutes.FindByIdIs | server/authRoutes.js:24-30 | with unique ids, looking up a row's id finds that row |
| AuthRoutes.FormatUser | server/authRoutes.js:54-66 | null stays null; otherwise every column is copied but the password |
| AuthRoutes.FormatUserIgnoresPassword | server/authRoutes.js:54-66 | what the client receives does not depend on the stored password |
| AuthRoutes.SignedTokenPassesGuard | server/authRoutes.js:175-186 | a token signed over an account's claims, sent as "Bearer <token>", passes a guard listing the account's role and hands the handler that account's claims |
| AuthRoutes.RegisterRejection | server/authRoutes.js:76-104 | the first failing check in order: a missing member (400), a malformed email (400), a short password (400), a taken email (409); none exactly when all pass |
| AuthRoutes.RegisterKeepsInvariant | server/authRoutes.js:39-50 | inserting a row with a fresh id, an unused email and an allowed role and status keeps ids and emails unique, and the row is found by both |
| AuthRoutes.Login | server/authRoutes.js:140-196 | 400 without both members; 401 "Invalid credentials" for every unknown email; 403 "Account is inactive" for every account that is not active; 401 for a wrong password; every 401 and 403 carries that message; 200 exactly for a known, active account whose password matches, with its formatted user and a token signed over its claims |
| AuthRoutes.LoginHidesUnknownEmail | server/authRoutes.js:152-172 | an unknown email and a wrong password get the same 401 reply |
| AuthRoutes.InactiveAccountIgnoresPassword | server/authRoutes.js:159-172 | the status check precedes the password comparison: an inactive account gets 403 whatever the password |
| AuthRoutes.GetProfile | server/authRoutes.js:199-218 | 404 "User not found" for an unknown caller; otherwise 200 with the caller's own formatted row |
| AuthRoutes.ProfileSetListAssigns | server/authRoutes.js:238-266 | the update sets the first name exactly when a truthy one is given, the last name likewise, and no other column; the list is empty exactly when neither is given |
| AuthRoutes.AssignProfile | server/authRoutes.js:262-266 | the profile assignments change only the first and last names |
| AuthRoutes.AssignProfileColumns | server/authRoutes.js:262-266 | only the names of the row with that id change; every other row is untouched |
| AuthRoutes.ProfileUpdateKeepsInvariant | server/authRoutes.js:262-266 | a profile update keeps the table invariant and changes only the names of the caller's row |
| AuthRoutes.NoProfileColumns | server/authRoutes.js:252-259 | with no columns to set the table is unchanged |
| AuthRoutes.StatusChangeKeepsInvariant | server/authRoutes.js:328-332 | setting an allowed status keeps the invariant and changes only that user's status |
| AuthRoutes.SetStatusColumn | server/authRoutes.js:328-332 | the row with that id gets the new status and nothing else changes |
| AuthRoutes.StatusChangeIsVisible | server/authRoutes.js:328-335 | after the update the user is found with the new status |
| AuthRoutes.AllUsers | server/authRoutes.js:282-301 | 200 exactly for a superadmin, with every row formatted in table order; 403 for anyone else |
| AuthRoutes.UserStore.constructor | server/authRoutes.js:13 | the table starts empty and satisfies its invariant |
| AuthRoutes.UserStore.Register | server/authRoutes.js:69-137 | a rejected request leaves the table as it was; an accepted one appends an active row with the next id and time (both counters advance by one), the hashed password and the normalised role, and answers 201 with its formatted row and a token signed over its claims |
| AuthRoutes.UserStore.InsertUser | server/authRoutes.js:39-50 | an active row with the next id and the current time is appended, keeping the invariant, and is found afterwards by its email and its id |
| AuthRoutes.UserStore.UpdateProfile | server/authRoutes.js:221-279 | 403 and no change when email, role or status is given; otherwise the names given are set, answering "No changes made" or "Profile updated" with the caller's row |
| AuthRoutes.UserStore.SetStatus | server/authRoutes.js:304-346 | 403 for a non-superadmin, 400 for a status outside active/inactive/suspended, 404 for an unknown user, each without change; 200 exactly when all three checks pass, and then only that user's status changes and the updated user is returned |
| AuthRoutes.UserStore.WriteStatus | server/authRoutes.js:328-335 | only that user's status changes, the invariant is kept, and the user is found with the new status |
| LibrariesRoutes.Owned | server/librariesRoutes.js:18-24 | exactly the caller's rows |
| LibrariesRoutes.OwnedCounts | server/librariesRoutes.js:18-24 | each of the caller's rows appears as often as in the table, every other row never, so its length is the number of rows the caller owns |
| LibrariesRoutes.OwnedAppend | server/librariesRoutes.js:18-24 | the caller's rows come in table order: those of a concatenation are those of the first part, then those of the second |
| LibrariesRoutes.InsertKeepsOrder | server/librariesRoutes.js:20 | inserting into a list in listing order keeps it ordered and adds exactly that row |
| LibrariesRoutes.SortForListingOrders | server/librariesRoutes.js:20 | the listing order is active first, then newest first, and a permutation of its input |
| LibrariesRoutes.UserLibrariesAreTheCallers | server/librariesRoutes.js:18-24 | `getUserLibraries` returns each of the caller's rows as often as the table holds it, in listing order, and nothing else |
| LibrariesRoutes.UserLibrariesCount | server/librariesRoutes.js:108-109 | the listing's length is the number of rows the caller owns |
| LibrariesRoutes.ActiveLibrary | server/librariesRoutes.js:9-15 | an active row of the caller, or null exactly when the caller has none |
| LibrariesRoutes.FindOwned | server/librariesRoutes.js:131-138 | a row with that id owned by the caller, or none exactly when there is no such row |
| LibrariesRoutes.FirstOtherOwned | server/librariesRoutes.js:250-253 | another of the caller's rows, or none exactly when the caller owns no other |
| LibrariesRoutes.DeactivateOwned | server/librariesRoutes.js:29-32 | the caller's rows become inactive, nothing else of them changes, and other users' rows are untouched |
| LibrariesRoutes.ActivateId | server/librariesRoutes.js:146-150 | the row with that id becomes active, nothing else of it changes, and every other row is untouched |
| LibrariesRoutes.AssignColumns | server/librariesRoutes.js:202-207 | no row's id, owner, active flag or creation time changes, and rows with another id are untouched |
| LibrariesRoutes.DeleteIdKeeps | server/librariesRoutes.js:264 | the rows a delete leaves are exactly those without that id |
| LibrariesRoutes.Promote | server/librariesRoutes.js:246-261 | only active flags change, and nothing at all when the deleted row is not active |
| LibrariesRoutes.ActiveIsTheOnly | server/librariesRoutes.js:9-15 | under the invariant, the caller's only active row is the one `getActiveLibrary` returns |
| LibrariesRoutes.ListingStartsWithActive | server/librariesRoutes.js:18-24 | under the invariant, the listing starts with the caller's active library, and holds no active library when there is none |
| LibrariesRoutes.NameChange | server/librariesRoutes.js:188-191 | a name is set exactly when a string that is not all white space is given, and it is stored trimmed |
| LibrariesRoutes.ImageChange | server/librariesRoutes.js:193-196 | the image URL is set exactly when the member is present; `null` clears it |
| LibrariesRoutes.SetListAssigns | server/librariesRoutes.js:184-207 | the update sets exactly the columns the body asks for; the list is empty exactly when it asks for none |
| LibrariesRoutes.SetListBuilt | server/librariesRoutes.js:184-196 | the list the handler pushes, the name when it is not blank and then the image URL when it is present, is the `SET` list of the two changes |
| LibrariesRoutes.Assign | server/librariesRoutes.js:202-207 | an update never changes a row's id, owner, active flag or creation time |
| LibrariesRoutes.CreateKeepsInvariant | server/librariesRoutes.js:27-46 | deactivating the caller's rows and inserting a fresh active row keeps the invariant and makes the new row the caller's active library |
| LibrariesRoutes.CreateOutcome | server/librariesRoutes.js:27-46 | the create keeps the invariant, hands out a fresh id and time, and makes the new row the caller's active library |
| LibrariesRoutes.SwitchRows | server/librariesRoutes.js:140-150 | a switch activates the target, deactivates the caller's other rows and leaves other users' rows alone |
| LibrariesRoutes.SwitchKeepsInvariant | server/librariesRoutes.js:125-165 | a switch to an owned row keeps the invariant, makes it the caller's active library and changes nothing but active flags of the caller's rows |
| LibrariesRoutes.SwitchToActiveIsIdempotent | server/librariesRoutes.js:140-150 | switching to the library already active leaves the table unchanged |
| LibrariesRoutes.UpdateKeepsInvariant | server/librariesRoutes.js:202-207 | an update keeps the invariant |
| LibrariesRoutes.DeleteIdAt | server/librariesRoutes.js:264 | with unique ids, deleting a row's id removes exactly that row and keeps the others in order |
| LibrariesRoutes.PromoteRows | server/librariesRoutes.js:246-261 | the promotion activates only the caller's first other row, and only when the deleted row is active |
| LibrariesRoutes.DeleteSurvivors | server/librariesRoutes.js:246-264 | after a delete the other rows remain in order, unchanged but for their active flags, and no row holds the deleted id |
| LibrariesRoutes.PromoteThenDeleteKeepsInvariant | server/librariesRoutes.js:246-264 | promoting the caller's first other row and then deleting the row keeps the invariant |
| LibrariesRoutes.DeleteKeepsInvariant | server/librariesRoutes.js:240-264 | deleting one of two or more of the caller's libraries keeps the invariant and leaves the caller an active library |
| LibrariesRoutes.DeleteOutcome | server/librariesRoutes.js:240-264 | the delete keeps the invariant and the stamps, removes one row and leaves the caller an active library |
| LibrariesRoutes.LibraryTable.constructor | server/librariesRoutes.js:6 | the table starts empty and satisfies its invariant |
| LibrariesRoutes.LibraryTable.ListLibraries | server/librariesRoutes.js:64-76 | 200 with the caller's rows, in listing order |
| LibrariesRoutes.LibraryTable.GetActive | server/librariesRoutes.js:79-95 | 200 with an active row of the caller, or with null exactly when the caller has none |
| LibrariesRoutes.LibraryTable.CreateLibrary | server/librariesRoutes.js:98-122 | 400 and no change for a missing or blank name or a caller at 10 libraries; 201 exactly when the name is non-blank and the caller has fewer than 10, and then the caller's rows are deactivated and a new active row with the trimmed name is inserted with the next id and time, and becomes the active library |
| LibrariesRoutes.LibraryTable.InsertActive | server/librariesRoutes.js:27-46 | the caller's rows are deactivated and an active row with the next id and the current time is appended, becoming the caller's active library; the invariant is kept |
| LibrariesRoutes.LibraryTable.SwitchLibrary | server/librariesRoutes.js:125-165 | 404 and no change for a row the caller does not own; otherwise that row becomes the caller's only active library and is returned |
| LibrariesRoutes.LibraryTable.UpdateLibrary | server/librariesRoutes.js:168-222 | 404 for a row not owned, 500 for a `null` name, 400 when nothing is asked for, each without change; 200 exactly when the row is owned, the name is not `null` and some column is asked for, and then exactly the columns asked for are set on that row |
| LibrariesRoutes.LibraryTable.AssignRows | server/librariesRoutes.js:202-207 | the assignments are applied to the row with that id and the invariant is kept |
| LibrariesRoutes.LibraryTable.DeleteLibrary | server/librariesRoutes.js:225-271 | 404 for a row not owned and 400 for the caller's last library, each without change; 200 exactly when the row is owned and the caller has two or more, and then another library is promoted when needed, the row is removed and the caller keeps an active library |
| LibrariesRoutes.LibraryTable.PromoteAndDelete | server/librariesRoutes.js:246-264 | when the row is active the caller's first other row is activated; the row is then removed, the invariant kept and the caller left with an active library |
| UploadRoutes.StripTrailingSlashes | server/uploadRoutes.js:16 | a prefix of the path without a final '/', having dropped only slashes |
| UploadRoutes.BaseName | server/uploadRoutes.js:16 | the last path component holds no '/' |
| UploadRoutes.ExtName | server/uploadRoutes.js:16 | `path.extname`: empty, or a '.' followed by no further '.' or '/' |
| UploadRoutes.ComponentExt | server/uploadRoutes.js:16 | empty, or a suffix of the component starting at its last '.' |
| UploadRoutes.ExtNameUnder | server/uploadRoutes.js:16 | a directory ending in '/' does not change a file's extension |
| UploadRoutes.ExtNameOf | server/uploadRoutes.js:16 | a file named `stem.e` has extension `.e` when the stem is not "" or "." |
| UploadRoutes.NoDotNoExtName | server/uploadRoutes.js:16 | a name without '.' has no extension |
| UploadRoutes.FileFilter | server/uploadRoutes.js:21-31 | a file is accepted exactly when its lowercased extension and its MIME type each contain jpeg, jpg, png, gif or webp; otherwise "Only image files are allowed" |
| UploadRoutes.AcceptedFileHasExtension | server/uploadRoutes.js:21-31 | only a file with an extension passes the filter |
| UploadRoutes.UpperCaseExtensionAccepted | server/uploadRoutes.js:23 | the extension is lowercased before the test: "photo.PNG" is accepted |
| UploadRoutes.NamedFileAccepted | server/uploadRoutes.js:21-27 | a file `stem.e` whose lowercased extension and MIME type pass the test is accepted |
| UploadRoutes.UpperCaseMimeTypeRefused | server/uploadRoutes.js:24 | the MIME type is tested as sent: "IMAGE/PNG" is refused |
| UploadRoutes.UnanchoredExtensionAccepted | server/uploadRoutes.js:22-23 | the pattern is unanchored: ".pngx" is accepted |
| UploadRoutes.StoredFilename | server/uploadRoutes.js:15-18 | the stored name starts with the uuid |
| UploadRoutes.StoredFilenameExtension | server/uploadRoutes.js:15-16 | the stored name holds no '/' and has the original name's extension |
| UploadRoutes.ImageUrl | server/uploadRoutes.js:48 | the URL is "/uploads/" followed by the stored name |
| UploadRoutes.StoredFilenameKeepsExtension | server/uploadRoutes.js:15-18 | the stored file and its URL keep the original extension, case included |
| UploadRoutes.UploadImage | server/uploadRoutes.js:33-57 | 400 "No image uploaded" without a file; refused by the filter, then by the 5 MiB limit; 200 exactly for an accepted file within the limit, with the URL of its stored name |
| UploadRoutes.UploadedUrlKeepsExtension | server/uploadRoutes.js:40-52 | an accepted upload's URL has the extension of the file sent, and it is never empty |
| BreadCrumb.NonEmpty | client/src/components/BreadCrumb.tsx:6 | `filter((x) => x)` keeps exactly the non-empty pieces |
| BreadCrumb.NonEmptyAppend | client/src/components/BreadCrumb.tsx:6 | filtering distributes over concatenation |
| BreadCrumb.Pathnames | client/src/components/BreadCrumb.tsx:6 | every segment is non-empty and holds no '/' |
| BreadCrumb.PathnamesOfCanonical | client/src/components/BreadCrumb.tsx:6 | the path "/a/b/c" of non-empty segments gives those segments back |
| BreadCrumb.TrailingSlashIgnored | client/src/components/BreadCrumb.tsx:6 | a trailing '/' changes no segment |
| BreadCrumb.CleanSegment | client/src/components/BreadCrumb.tsx:9-11 | a segment cut at its first '?': a prefix with no '?', the segment itself when it has none |
| BreadCrumb.Clean | client/src/components/BreadCrumb.tsx:9-11 | one clean segment per segment |
| BreadCrumb.Capitalize | client/src/components/BreadCrumb.tsx:36-39 | the first character upper-cased, the rest kept |
| BreadCrumb.LookUp | client/src/components/BreadCrumb.tsx:15-39 | the table's label when the key has one, the fallback otherwise |
| BreadCrumb.GetLabel | client/src/components/BreadCrumb.tsx:14-40 | a label is either the capitalised segment or one of the table's labels |
| BreadCrumb.LabelCases | client/src/components/BreadCrumb.tsx:14-40 | outside the singular case a segment in the table gets its label; in it the segment without its last character is looked up; a key missing from the table gives the capitalised segment |
| BreadCrumb.LabelNonEmpty | client/src/components/BreadCrumb.tsx:14-40 | a non-empty segment gets a non-empty label, since every entry of the table is non-empty |
| BreadCrumb.SingularLabel | client/src/components/BreadCrumb.tsx:35-36 | on any path whose last two raw segments are the segment and a string `Number` accepts, the segment is looked up without its last character, falling back to the segment capitalised |
| BreadCrumb.PlainLabel | client/src/components/BreadCrumb.tsx:39 | a segment that is not the second to last is looked up as it is |
| BreadCrumb.CrumbsOf | client/src/components/BreadCrumb.tsx:54-77 | one crumb per segment |
| BreadCrumb.Crumbs | client/src/components/BreadCrumb.tsx:54-77 | one crumb per segment of the location's pathname |
| BreadCrumb.LinkTo | client/src/components/BreadCrumb.tsx:55 | every crumb's link is an absolute path, starting with '/' |
| BreadCrumb.CrumbFields | client/src/components/BreadCrumb.tsx:55-56 | crumb i links to "/" and the first i + 1 clean segments joined by '/', and is a link exactly when it is not the last |
| BreadCrumb.ShowSeparator | client/src/components/BreadCrumb.tsx:53 | the chevron after the home icon is shown exactly when there is a crumb |
| BreadCrumb.OnlyLastCrumbIsText | client/src/components/BreadCrumb.tsx:56-73 | every crumb but the last is a link |
| BreadCrumb.CrumbCaptions | client/src/components/BreadCrumb.tsx:62-70 | each crumb reads the label of its clean segment |
| BreadCrumb.CrumbLinksExtend | client/src/components/BreadCrumb.tsx:55 | the first link is "/" and the first segment; each further link extends the previous by "/" and its segment |
| BreadCrumb.LastCrumbIsThePath | client/src/components/BreadCrumb.tsx:54-77 | for a path without '?', the last crumb is plain text pointing at the path itself |
| BreadCrumb.TwoCrumbs | client/src/components/BreadCrumb.tsx:54-77 | two segments without '?' give a link to "/a" and the text at "/a/b", each captioned by its label |
| BreadCrumb.SingularBeforeDigits | client/src/components/BreadCrumb.tsx:35 | on any path whose last two raw segments are the segment and a run of digits, the segment is in the singular case |
| BreadCrumb.BookDetailCaptions | client/src/components/BreadCrumb.tsx:35-39 | under "/books/42", "books" reads "Books" and "42" reads "42" |
| BreadCrumb.FortyTwoCaption | client/src/components/BreadCrumb.tsx:39 | under "/books/42", "42" has no label and nothing to capitalise, and reads "42" |
| BreadCrumb.BookDetailCrumbs | client/src/components/BreadCrumb.tsx:54-77 | the segments "books", "42" give a link "Books" to "/books" and the text "42" at "/books/42" |
| BreadCrumb.BookDetailTrail | client/src/components/BreadCrumb.tsx:54-77 | "/books/42" shows a link "Books" to "/books" and the plain text "42" |
| BreadCrumb.SingularCaseSkipsTable | client/src/components/BreadCrumb.tsx:35-37 | under "/my-books/3" the segment reads "My-books", while "/my-books" reads "My Books" |
| RegisterPage.ValidateRegistration | client/src/pages/Register.tsx:49-83 | each check's own message in the page's order; none exactly when names and email are not blank, the email holds '@' and '.', the password has 8 UTF-16 units and is confirmed |
| RegisterPage.WithField | client/src/pages/Register.tsx:34-41 | the changed input reads the typed value and every other input keeps its own |
| RegisterPage.Payload | client/src/pages/Register.tsx:87-90 | the four form strings, no role |
| RegisterPage.PayloadIgnoresConfirmation | client/src/pages/Register.tsx:87 | the confirmation never leaves the page |
| RegisterPage.RedirectFor | client/src/pages/Register.tsx:101-106 | /home exactly for admin and superadmin, /profile otherwise |
| RegisterPage.AcceptedFormOnServer | client/src/pages/Register.tsx:49-106 | a form the page accepts passes the server's presence and password checks; the server refuses it only for an email its pattern rejects or one taken; the new admin goes to /home |
| RegisterPage.ServerEmailPassesPage | client/src/pages/Register.tsx:55-65 | every email the server accepts passes the page's email checks |
| RegisterPage.PageLooserThanServer | client/src/pages/Register.tsx:61-65 | "a@b." passes the page and is refused by the server with 400 "Invalid email address" |
| RegisterPage.RegisterPageState.constructor | client/src/pages/Register.tsx:21-30 | an empty form, no error, not loading, nothing stored |
| RegisterPage.RegisterPageState.HandleChange | client/src/pages/Register.tsx:34-41 | only the named input changes, and the error clears |
| RegisterPage.RegisterPageState.BeginSubmit | client/src/pages/Register.tsx:43-90 | the first failed check is shown and nothing is sent; otherwise the payload is posted and the page is loading |
| RegisterPage.RegisterPageState.FinishSubmit | client/src/pages/Register.tsx:92-115 | on success the token and user are stored and the page goes where the role says; a null user shows the fallback error; a thrown error shows the server's message or the fallback; loading ends |
| CreateLibraryModal.CheckImage | client/src/components/modals/CreateLibrary.tsx:42-58 | the type check before the size check; none exactly for one of the four types within 5 MiB |
| CreateLibraryModal.CheckedImagePassesServer | client/src/components/modals/CreateLibrary.tsx:42-58 | every file the modal sends passes the server's MIME test and size limit |
| CreateLibraryModal.SizeBoundInclusive | client/src/components/modals/CreateLibrary.tsx:55 | exactly 5 MiB is sent, one byte more is not |
| CreateLibraryModal.CheckName | client/src/components/modals/CreateLibrary.tsx:88-96 | "required" for a blank name, then "at least 3 characters"; none exactly when the trimmed name has 3 UTF-16 units |
| CreateLibraryModal.LibraryPayload | client/src/components/modals/CreateLibrary.tsx:100-103 | the trimmed name, and the image URL with "" sent as null |
| CreateLibraryModal.CheckedNamePassesServer | client/src/components/modals/CreateLibrary.tsx:88-103 | a name the modal accepts passes the server's name check unchanged by its trim, and the image URL arrives as sent |
| CreateLibraryModal.SubmitDisabled | client/src/components/modals/CreateLibrary.tsx:257 | disabled exactly when the name is blank or an upload is running |
| CreateLibraryModal.EnabledSubmitHasName | client/src/components/modals/CreateLibrary.tsx:88-91 | with the button enabled, "Library name is required" cannot appear and no upload is running |
| CreateLibraryModal.CreateLibraryForm.constructor | client/src/components/modals/CreateLibrary.tsx:17-23 | an empty form, no error, idle |
| CreateLibraryModal.CreateLibraryForm.Disabled | client/src/components/modals/CreateLibrary.tsx:256-257 | the button's state now: disabled exactly for a blank name, an upload running or a create request in flight (the button adds `loading` to its `disabled` prop); an enabled button cannot meet the "required" message |
| CreateLibraryModal.CreateLibraryForm.HandleChange | client/src/components/modals/CreateLibrary.tsx:27-34 | typing in the name input (the only input wired to it) sets the name, keeps the image and clears the error |
| CreateLibraryModal.CreateLibraryForm.RemoveImage | client/src/components/modals/CreateLibrary.tsx:192-202 | "Remove image" empties the image reference and leaves the error as it is; the next payload then carries a null imageUrl |
| CreateLibraryModal.CreateLibraryForm.BeginUpload | client/src/components/modals/CreateLibrary.tsx:36-69 | no file does nothing; a failed check shows its message and sends nothing; otherwise the file is sent and the modal is uploading |
| CreateLibraryModal.CreateLibraryForm.FinishUpload | client/src/components/modals/CreateLibrary.tsx:71-82 | a success stores the URL and clears the error; a thrown error shows the server's message or "Failed to upload image"; the upload ends |
| CreateLibraryModal.CreateLibraryForm.BeginSubmit | client/src/components/modals/CreateLibrary.tsx:85-103 | a failed name check shows its message and sends nothing; otherwise the payload is posted and the modal is loading |
| CreateLibraryModal.CreateLibraryForm.FinishSubmit | client/src/components/modals/CreateLibrary.tsx:105-115 | a success hands the library on and empties the form; a thrown error shows the server's message or "Failed to create library"; loading ends |
| HomePage.FirstWhere | client/src/pages/Home.tsx:62-65 | the first index whose flag matches, or the length when none does |
| HomePage.FindActive | client/src/pages/Home.tsx:62-65 | null exactly when no library is active; otherwise the first active one |
| HomePage.SwitchUpdate | client/src/pages/Home.tsx:93-96 | each entry keeps its place and fields and is active exactly when it has the id |
| HomePage.SwitchUpdateIdempotent | client/src/pages/Home.tsx:93-96 | the same local update twice changes nothing more |
| HomePage.SwitchedListShowsTarget | client/src/pages/Home.tsx:91-97 | after a switch, the active library found in a list with distinct ids is the target, now active |
| HomePage.ServerSwitchRow | server/librariesRoutes.js:140-150 | after the server's two updates, a caller's row keeps its owner and fields and is active exactly when it has the target id |
| HomePage.AfterSwitch | client/src/pages/Home.tsx:85-108 | success takes the answer as active and updates the list; otherwise the view is unchanged; a thrown error raises the server's message or the fallback |
| HomePage.InactiveCount | client/src/pages/Home.tsx:362-366 | at most the list's length; zero exactly when every library is active |
| HomePage.InactiveCountCounts | client/src/pages/Home.tsx:362-366 | the counter is the number of inactive libraries: how often `false` occurs among the entries' active flags |
| HomePage.SwitchTarget | client/src/pages/Home.tsx:166-172 | the button targets the first inactive library in list order; it has no target exactly when every library is active |
| HomePage.SwitchButtonHasTarget | client/src/pages/Home.tsx:164-172 | the button is shown exactly when it has a target |
| HomePage.SwitchLeavesOthersAvailable | client/src/pages/Home.tsx:93-97 | after switching to one entry of a list with distinct ids, the counter shows every other entry |
| HomePage.ListingShowsServerActive | client/src/pages/Home.tsx:59-65 | the active library the page reads off the server's listing is the one `getActiveLibrary` returns |
| HomePage.LocalSwitchMatchesServer | client/src/pages/Home.tsx:90-97 | the list after the local update holds exactly the caller's rows of the server's table after the switch |

## Left out

- Password hashing, password comparison, token signing and verification, and `uuidv4` are parameters. Their cryptography, the token's 7-day expiry and the secret are not modelled.
- MySQL is a sequence of rows. Column collations are not modelled: email lookup is exact string equality, and MySQL compares emails case-insensitively by default.
- The `:id` URL parameter is a natural number. MySQL's coercion of strings such as "3abc" to numbers is not modelled.
- `updated_at` and `formatLibrary`'s renaming of columns are not modelled: a library is returned as its row.
- Request body members are missing, `null` or strings. Numbers, booleans, arrays and objects sent as JSON are not modelled.
- The `status` of a new user is "active", the column's default in the schema. The schema is not part of this model.
- `LIMIT 1` without `ORDER BY` in `getActiveLibrary` and in the delete handler's promotion picks the first row in table order.
- Requests run one at a time. Concurrent requests, and the absence of transactions around a handler's statements, are not modelled.
- 500 "Server error" for database failures is not modelled. The one 500 modelled is the update handler's `null.trim()`.
- multer's disk storage and the write itself are not modelled. A refusal by multer, by the filter or by the size limit, becomes `Refused` with its message; Express's error handler turns that into an HTML 500 page, which is not modelled.
- `toLowerCase` and `toUpperCase` are ASCII only.
- Label keys that `Object.prototype` supplies, such as "constructor", are not modelled: the label table holds only its sixteen entries.
- `Number(s)` is modelled as a test of whether `s` converts to a number. The numeric value itself is not modelled.
- The breadcrumb's rendering and home link, the pages' markup, `localStorage` beyond the two items set, and the router are not modelled. The pages' `fetchLibraries`, manage buttons and date formatting are not modelled.
- Home.tsx's `switchLoading` flag is not modelled.
- RegisterPage.RegisterPageState.FinishSubmit: a null user stored after a successful register makes `user.role` throw, which shows the fallback message. An `undefined` user is not distinguished from `null`.
