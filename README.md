# Note-sharing app: a Dafny model of its decision logic

The application is a small Go web server. Users register and log in, then
write notes. A note has an owner, a share list of user ids, a name, a creation
day, a completion day, a status flag (Note, In Progress, Completed, Cancelled,
Delegated) and some content. The dashboard lists the notes a user may see,
narrowed by a search that every user shares.

The model covers the logic between the HTTP layer and the database:

- **Visibility.** Which notes a user may see (`getAccessibleNotes`).
- **Search.** The four-part note search (`searchNotes`): keyword, owner, day and flag.
- **Share lists.** How a share list is read from a form (`getShareDetails`), and how password hashes are blanked before users reach a page (`clearUserPasswordHash`).
- **Character policy.** The `ValidateString` checker and the registration policies built on it.
- **Handler decisions.** What each handler does to the note, user and settings tables, to the global search criteria and to the login and registration messages. Each table is a sequence of rows in insertion order.
- **Template helpers.** The dashboard's template helper functions.
- **Start-up.** Port selection and the route table.

Modules, in dependency order:

| module | file | contents |
|---|---|---|
| `Seqs` | seqs.dfy | order-preserving `Filter`, with membership, multiplicity and embedding lemmas; `Reverse` |
| `Text` | text.dfy | ASCII lower-casing, substring search, zero-padded decimals |
| `Strconv` | strconv.dfy | Go's `strconv.ParseInt(s, 10, 64)` and `Atoi`, including range errors and clamping |
| `Records` | records.dfy | the rows of db.go, Go's `int32` conversion, the two date layouts |
| `Web` | web.dfy | form values, the response a handler writes, sessions |
| `Visibility` | visibility.dfy | `getAccessibleNotes` |
| `Search` | search.dfy | `searchNotes` |
| `Share` | share.dfy | `getShareDetails`, `clearUserPasswordHash` |
| `Validation` | validation.dfy | `ValidateString` |
| `Auth` | auth.dfy | `isAuthenticated`, the username and password policies |
| `Tables` | tables.dfy | flag and name checks, row lookups, insert, edit, delete and colleague updates |
| `Dashboard` | dashboard.dfy | the dashboard data and its template helpers |
| `Server` | server.dfy | class `App`, with one method per handler |
| `Startup` | startup.dfy | `findBindPort`, `initRouter` |

Responses are modelled by `Web.Reply`:

- The first response a handler writes is the one the client gets.
- `checkInternalServerError` writes status 500 and then lets its caller carry on, so a later redirect does not replace the 500.
- A rendered template is `Page(template, message)`.

Behaviour worth knowing:

- **Unshared notes are private.** A new note with nobody selected is stored with the share list `[-1]` (handler-helper.go:270-272), not an empty one, so it is visible only to its owner (`Share.UnsharedNoteIsPrivate`). The forms never produce an empty share list, which would make a note visible to everyone.
- **Negative flags are accepted.** The flag check only asks that the flag be below `NoteFlagMax` (handlers.go:138), so negative flags are stored. The template's label lookup then fails for them (`Dashboard.AcceptedFlagLabel`).
- **Errors do not abort the request.** After a storage, parse or hashing error the 500 is written and the handler carries on (util.go:10-15). So an unparsable share value is stored as 0, and a user whose password could not be hashed is registered with no password hash.
- **The owner criterion wraps.** It is compared after a 32-bit conversion (handler-helper.go:142).
- **A requirement's amount is a minimum.** The code rejects a string when a count is below the amount (util.go:66), so more occurrences than the amount are accepted.
- **An empty search form is not "unset".** Submitting the search form with empty user and flag fields selects user 0 and flag 0, because `Atoi("")` is 0. The unset value is -1.

## Model

| member | source | states |
|---|---|---|
| Text.ContainsIffOccurs | handler-helper.go:136-137 | substring search holds exactly when the needle occurs at some index of the text |
| Text.LowerIdempotent | handler-helper.go:136-137 | lower-casing twice is lower-casing once |
| Text.PadDecimalValue | handler-helper.go:147 | a zero-padded decimal reads back as the number it was written from |
| Text.PadDecimalInjective | handler-helper.go:147 | different numbers have different zero-padded decimals of one width |
| Strconv.ParseIntOk | app.go:41 | a successful parse had a non-empty input made of an optional sign and digits only; its value is the decimal value of the digits, negated after a minus sign, and lies in the 64-bit range |
| Strconv.ParseFormatRoundTrip | handlers.go:136 | parsing the decimal text of any 64-bit integer gives that integer back |
| Records.ToInt32 | handler-helper.go:142 | `int32(x)` is congruent to x modulo 2^32 and is x itself when x fits |
| Records.IsoDateInjective | handler-helper.go:147 | two real days written alike in the `2006-01-02` layout are the same day |
| Web.WrittenReplyIsFinal | util.go:10-15 | a response once written stays what the client gets, whatever the handler writes after it |
| Web.FirstWriteWins | util.go:10-15 | on a fresh response the client gets the first reply actually written, and nothing when nothing is written |
| Web.ServerErrorIsFinal | util.go:10-15 | an error reported before anything is written makes the response status 500 whatever follows; no error leaves the later writes to decide |
| Visibility.GetAccessibleNotes | handler-helper.go:99-114 | the loop keeps exactly the notes the user may see, in input order: the result is the visibility filter of the input, and a note is in it iff it is in the input and has an empty share list, the user's id in its share list, or the user as owner |
| Visibility.AccessibleMembership | handler-helper.go:102-110 | a note is kept iff it is in the input and visible to the user |
| Visibility.AccessibleIsSubsequence | handler-helper.go:100-113 | the kept notes embed into the input at strictly increasing positions, each kept note appears as often as in the input, and the result is no longer than the input |
| Visibility.AccessibleIdempotent | handler-helper.go:99-114 | filtering an already filtered list for the same user changes nothing |
| Visibility.ShareMinusOneIsPrivate | handler-helper.go:106-110 | a note shared with `[-1]` is visible to a user whose id is not -1 iff that user owns it |
| Visibility.EmptyShareIsPublic | handler-helper.go:102-104 | a note with an empty share list is kept for every user |
| Visibility.ThreeNotesExample | handler-helper.go:99-114 | user 1 sees their unshared note, a note shared with them and another user's unshared note, in order |
| Search.SearchNotes | handler-helper.go:128-162 | the loop keeps exactly the notes passing all four checks, in input order; a note is in the result iff it is in the input and passes |
| Search.SearchMembership | handler-helper.go:131-158 | a note is in the result iff it is in the input and passes keyword, owner, day and flag checks |
| Search.SearchIsSubsequence | handler-helper.go:129-161 | the result embeds into the input in order; each note's count is kept if it passes and is zero otherwise |
| Search.SearchUnsetIsIdentity | handler-helper.go:135-154 | with keyword "", owner -1, day "" and flag -1 the result is the input |
| Search.KeywordMatchesIff | handler-helper.go:135-139 | the keyword passes iff it is empty or its lower-cased form occurs in the lower-cased name or content |
| Search.KeywordCaseInsensitive | handler-helper.go:136-137 | a keyword and its lower-cased form select the same notes |
| Search.KeywordIgnoresCase | handler-helper.go:135-139 | "TODO" finds a note whose content is "remember the todo list" |
| Search.DateMatchesDay | handler-helper.go:147-149 | for a real day, a note matches iff it was created that day, or it is Completed and was completed that day |
| Search.OwnerCriterionWraps | handler-helper.go:142 | an owner criterion 2^32 above an id selects that id's notes |
| Share.GetShareDetails | handler-helper.go:257-275 | the list is never empty; it is the `Atoi` value of each selected user's field, in the order of the given users, or `[-1]` when none is selected; an error is reported iff some selected field does not parse |
| Share.ShareNoSelection | handler-helper.go:270-272 | with no field filled in the list is exactly `[-1]` |
| Share.ShareWithSelection | handler-helper.go:260-268 | with some field filled in, the list has one entry per selected user, in the order of the users, each that user's `Atoi` value |
| Share.UnparsableShareIsZero | handler-helper.go:263-266 | a selected value that is not a number is still appended, as 0 |
| Share.ShareIsMinusOne | handler-helper.go:257-275 | the list is `[-1]` iff nobody is selected or exactly one user is selected with value -1 |
| Share.UnsharedNoteIsPrivate | handler-helper.go:270-272 | a note stored with the share list of an empty selection has a non-empty share list and is visible to a user (id not -1) iff that user owns it |
| Share.ClearUserPasswordHash | handler-helper.go:240-244 | every element's password becomes empty and every other field stays, in place |
| Validation.ValidateString | util.go:47-72 | the result is true iff no character is blacklisted and every requirement's count reaches its amount |
| Validation.OccurrencesIsMultiplicity | util.go:56-61 | a character listed k times in a requirement is counted k times |
| Validation.CountListingOneMore | util.go:56-61 | listing one more character adds that character's number of occurrences in the string |
| Validation.CountGrows | util.go:56-61 | the counters never decrease as the scan advances |
| Validation.CountDistinct | util.go:56-61 | for a list without repeats, the count is the number of characters of the string that are in the list |
| Validation.EmptyPolicyAcceptsAll | util.go:47-72 | with no blacklist and no requirement every string is accepted |
| Validation.NonPositiveAmountIgnored | util.go:65-69 | adding a requirement with amount 0 or less changes no verdict |
| Validation.AmountIsAMinimum | util.go:66 | two listed characters satisfy a requirement of one, so an amount is a minimum and not an exact count |
| Auth.IsAuthenticated | auth.go:13-36 | authenticated iff a session exists with a positive count and a non-empty user name; otherwise the reply is a redirect to /login |
| Auth.UsernamePolicy | auth.go:107-111 | a user name is accepted iff it has no space |
| Auth.PasswordPolicy | auth.go:113-122 | a password is accepted iff it has no space, at least two digits and at least one of the 30 listed special characters |
| Tables.ParseFlag | handlers.go:136-141 | a flag is accepted iff the field parses as a 64-bit integer below `NoteFlagMax`; the accepted flag is the parsed value |
| Tables.FlagCheck | handlers.go:136-141 | a decimal flag is accepted iff it is below `NoteFlagMax`, negatives included; empty and sign-only text is rejected |
| Tables.TruncateName | handlers.go:143 | the stored name is a prefix of the field, at most 255 long, the whole field when it fits and exactly 255 long otherwise |
| Tables.TruncateIdempotent | handlers.go:143 | truncating a stored name again changes nothing |
| Tables.FindUser | handler-helper.go:181 | a user found by name is a row with that name; none is found iff no row has the name |
| Tables.FindUserAppended | auth.go:134 | a user appended under a name that no row has is found by that name |
| Tables.FindSettings | handler-helper.go:199 | a settings row found is the user's; none is found iff the user has no row |
| Tables.OtherUsersMembership | handler-helper.go:214-231 | the other users are exactly the rows named neither like the excluded user nor like the placeholder, each as often as in the table |
| Tables.InsertKeepsNamesUnique | handlers.go:151-164 | inserting keeps names unique and leaves the name present |
| Tables.EditKeepsOwnerAndDate | handlers.go:202-203 | an edit never changes owner or creation day; notes with another name are untouched; notes with the target name carry the new share list, name, completion day, flag and content |
| Tables.EditAbsentIsNoOp | handlers.go:193-197 | editing a name that no note has leaves the table unchanged |
| Tables.EditIgnoresOwnership | handlers.go:193-206 | another user's note is edited, and renaming onto a used name leaves two notes with one name |
| Tables.DeleteMembership | handlers.go:229 | a note survives iff it does not both carry the name and belong to the user; survivors keep order and count |
| Tables.DeleteOthersNoteIsNoOp | handlers.go:229 | when every note with the name belongs to someone else, the table is unchanged |
| Tables.UpdatedSettingsReadBack | handlers.go:251-255 | after the update a settings lookup for any user finds the new list when its row is the one updated, the old row otherwise, and still nothing for a user without settings |
| Tables.StoredColleaguesNonEmpty | handlers.go:246-254 | a stored colleague list is never empty and never starts with -1 |
| Dashboard.ListedMembership | handlers.go:38-43 | a note is listed iff it is in the table, the user may see it and it matches the criteria |
| Dashboard.ScrubbedHasNoPasswords | handlers.go:45-46 | no listed user carries a password hash; ids and names are kept |
| Dashboard.IsColleague | handlers.go:73-80 | true iff the id is in the colleague list |
| Dashboard.CompletedDateIsNA | handlers.go:84-89 | the column reads "N/A" iff the note is not Completed; a Completed note shows its completion day |
| Dashboard.OwnedNotesAreVisible | handlers.go:90-92 | a note the user owns is always among the visible ones |
| Dashboard.NoteFlagLabel | handlers.go:93-101 | a label exists iff the flag is from 0 to 4 |
| Dashboard.AcceptedFlagLabel | handlers.go:93-101 | an accepted flag has a label iff it is not negative; "-1" is accepted and has none |
| Dashboard.CompletedLabel | handlers.go:93-101 | the Completed flag is labelled "Completed" |
| Dashboard.UserName | handlers.go:62-72 | the name shown is that of the first user with the id, blank when that user is the placeholder; blank when no user has the id; never the placeholder's name |
| Server.SearchFormUnset | handlers.go:118-121 | a form sending "" and -1 resets the criteria to unset; an all-empty form selects user 0 and flag 0 instead |
| Server.App.constructor | handlers.go:13-18 | the application starts with unset criteria and empty messages |
| Server.App.IndexHandler | handlers.go:20-25 | a logged-in user is redirected to /dashboard, anyone else to /login |
| Server.App.DashboardHandler | handlers.go:27-111 | logged out: redirect to /login and no page. Logged in: the page holds the user, their settings, the other users without hashes, and the visible notes matching the criteria, newest first; the reply is 500 iff the user or settings row is missing |
| Server.App.SearchHandler | handlers.go:113-124 | logged in: the criteria become the form's and the reply redirects to /dashboard; logged out: nothing changes |
| Server.App.CreateNoteHandler | handlers.go:126-165 | a bad flag gives 500 and no change; otherwise the acting user's note with the truncated name, the form's share list and the creation and completion day now is inserted iff its name is free |
| Server.App.EditNoteHandler | handlers.go:167-207 | a bad flag gives 500 and no change; otherwise every note with the selected name gets the form's share list, truncated name, flag and content and completion day now, whoever owns it |
| Server.App.DeleteNoteHandler | handlers.go:209-233 | the notes with the selected name that the acting user owns are removed; nothing else changes |
| Server.App.EditSettingsHandler | handlers.go:235-258 | when the form's list starts with -1 nothing is stored and nothing is written back; otherwise the user's settings row gets the list |
| Server.App.LoginHandler | auth.go:54-91 | GET shows and then clears the message; an unknown name sets "Incorrect Username" and a wrong password "Incorrect Password", with no session; success clears the message and opens a session with count 1 for the one user with the given name |
| Server.App.RegisterHandler | auth.go:93-150 | GET shows and then clears the message; the name, the password and name availability are checked in that order, each failure setting its message and changing no table; success appends the user, with no hash when hashing failed, and an empty colleague list, keeps user names unique, makes the login lookup find the new user, and replies with a redirect to /login, or with 500 when hashing failed |
| Server.EmptyUsernameNeverLoggedIn | auth.go:26 | the empty name passes registration, yet a session for it never counts as logged in |
| Server.LoginSessionIsLoggedIn | handler-helper.go:42-48 | a session opened by login is logged in iff the user name is not empty |
| Startup.FindBindPort | app.go:30-47 | the port is argument 1 when it parses as a 64-bit integer, else a non-empty PORT value, else "8080"; it is never empty |
| Startup.Dispatch | app.go:70-92 | a handler is found only through a registered route matching path and method; none is found iff no route matches |
| Startup.RouteTableDispatch | app.go:74-89 | the table serves GET only under /statics/ and on /, /logout and /dashboard; POST and GET on /login and /register; POST only on /search, /create, /edit, /delete and /editsettings; no other path is served |
| Startup.InitRouter | app.go:70-92 | the routes built one registration at a time serve those paths and methods, each with its handler, and no other path |

## Left out

- Database I/O is not modelled: the queries, the connection, `importData` and `execSqlScript`. Tables are in-memory sequences. Failures of a query other than "no row" are not modelled, nor are the `400` replies they cause.
- Templates are not executed. A rendered page is `Page(template, message)`; template errors are not modelled.
- Status codes are not modelled: a redirect is `Redirect(location)`, and the 301 code is not kept.
- bcrypt is a parameter: `hashedPassword` stands for the generated hash, `hashFailed` for its error and `passwordMatches` for the comparison.
- The session library, cookies, `setupAuth` and `logoutHandler` are not modelled. A session is a value passed to each handler; the one `createUserSession` opens is what `LoginHandler` returns.
- `time.Now` is a `now` parameter. A timestamp is reduced to its calendar day; time of day and time zones are not modelled.
- `strings.ToLower` is modelled for ASCII letters only.
- Tables.TruncateName: cuts after 255 characters; Go cuts after 255 bytes, which differs for names with multi-byte characters.
- Invalid UTF-8 in a string that `ValidateString` scans is not modelled. Go decodes such bytes to U+FFFD; the model treats a string as a sequence of characters.
- Share values that do not fit the `int4[]` column make the database reject the row; that rejection is not modelled.
- The `json` and `addOne` template helpers are not modelled: one is a foreign encoder, the other adds one. `shortDate` is `Records.ShortDate`.
- `respondWithJSON`, `respondWithError`, `GetOutboundIP`, `Run`, `InitApp`, `connectToPostgreSQL` and `main` are not modelled: they are network, signal and process plumbing.
- The search criteria are shared by every request. They are one field of `App`; concurrent requests are not modelled.
- Server.App.RegisterHandler: when hashing fails, Go inserts a nil hash, which the driver sends as NULL. The model stores the empty string instead, and it assumes that the `pass` column accepts NULL, so that the insert succeeds.
- Server.App.RegisterHandler: the ids of the new rows are parameters. The model does not require them to be fresh, because the database's serial columns guarantee that.
- Startup.Dispatch: gorilla/mux answers 405 when a path matches but the method does not; the model does not distinguish that from "no route" (both are `None`).
- Tables.OtherUsers: the other users are listed in table order. The query in handler-helper.go:215 has no `ORDER BY`, so the database may return them in any order. Share.GetShareDetails and the stored share and colleague lists inherit this order.
- `NoteFlagMax`, `NoteFlagCompleted`, `NoteNameMaxLength` and `minInt` are not defined in the files modelled. The model fixes them at 5, 2 and 255 and takes `minInt` to be the smaller of two integers. 5 and 2 match the five flag labels and the place of "Completed" among them (handlers.go:93-101); 255 is the value the model chooses for the undefined name limit.
