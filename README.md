# Scholar-Connect request handlers in Dafny

Scholar-Connect is a small Flask application for sharing research papers.
Its state is three database tables — users, papers and chat messages — and
a process-wide, append-only list of notification texts. This project models
that state and the request handlers that read and change it.

- `tables.dfy` (module `Tables`): rows in storage order. `Filter` is a
  query's WHERE clause followed by `.all()`. `FirstIndex` is a query
  followed by `.first()`. Both come with their lemmas.
- `text.dfy` (module `Text`): Python's `str.strip()`, ASCII lower-casing,
  and the SQL `LIKE`/`ILIKE` pattern language that the explore search uses.
- `records.dfy` (module `Records`): the `User`, `Paper` and `ChatMessage`
  rows and the ten `Categories`. It also holds the notification texts, the
  `Outcome` of a request, and `Consistent`. `Consistent` is what the
  schema's keys and constraints and the handlers' guards keep true: unique
  keys, unique usernames and emails, foreign keys that name a user, and
  categories from the list. One lemma per kind of table update proves that
  the update keeps `Consistent`.
- `queries.dfy` (module `Queries`): the read-only queries. These are the
  login check, the first-match guard of the profile edit, explore, the
  dashboard, the chat thread and the chat-partner list. Each comes with
  lemmas stating what it returns.
- `app.dfy` (module `Application`): class `ScholarConnect`. Its fields are
  the tables and the notification log. It has one method per handler that
  changes state or queries the tables for the logged-in user (register,
  edit_profile, upload, dashboard, delete_paper, collaborate, chats, chat
  and modify_submission). Each method's `ensures` states the outcome and
  the whole new state. Login and explore need no session and are the
  functions `Queries.Login` and `Queries.Explore`.
  Three smaller methods, `InsertUser`, `RemovePaper` and `StoreMessage`,
  each perform one table write and commit, and the handlers call them.

The logged-in user is a parameter `me`. A request counts as authenticated
when a user row has that id, which is what the user loader does with the
session's id. Without one, the handlers answer `Unauthorized`: no login
view is configured, so the login guard answers with a 401. Hashing is a
function the application is created with, and a password check compares
hashes. The same goes for the file-name sanitiser.

Database constraints that the handlers do not catch are modelled as a
failed commit (`CommitFailed`) with no change to the state. These are the
unique username and email columns and the foreign keys. The request ends in
a server error and the session is rolled back. This is how registration
stops a duplicate username or email, since it checks for none itself. It is
also how a profile edit that slips past its guard is stopped, and how a
message to a user who does not exist is stopped.

Some behaviours follow the code, not the obvious reading:

- `edit_profile` only looks at the first user, in storage order, whose
  username or email matches. `Queries.EditGuardMissesClash` exhibits an edit
  that passes this guard although another user has the email. In that case
  only the unique constraint stops it, with a failed commit.
- `upload` adds no notification. Line 212 is a flash message.
- `delete_paper` does not check ownership: any logged-in user can delete
  any paper. The model keeps this.
- The explore search goes into `ILIKE '%<search>%'` unescaped. In it, `%`
  and `_` are wildcards and a backslash escapes the next character
  (PostgreSQL). The model matches the pattern as written.
  `Text.ILikeContains` proves that this is a case-insensitive substring test
  when the search holds none of those characters, and
  `Text.UnderscoreIsWildcard` shows that it is not one otherwise.

## Model

| member | source | states |
|---|---|---|
| `Text.IsSpace` | app.py:222 | whitespace is Python's `str.isspace()`: space, tab, line feed and carriage return are whitespace, no visible ASCII character is |
| `Text.Strip` | app.py:222 | the stripped search is a contiguous piece of the input with only whitespace cut off either side, and is empty or begins and ends with a non-whitespace character |
| `Text.StripEmpty` | app.py:222-227 | the search filter is skipped exactly when the search text is all whitespace (stripping leaves nothing iff every character is whitespace) |
| `Text.Like` | app.py:228 | `LIKE` with PostgreSQL's `%`, `_` and backslash escape; a pattern free of those matches exactly the string equal to it |
| `Text.ILike` | app.py:228 | `ILIKE` is `LIKE` after lower-casing both sides; a pattern free of wildcards matches exactly the strings equal to it up to case |
| `Text.LikeContains` | app.py:228 | for a wildcard-free text `q`, `LIKE '%q%'` matches exactly the strings containing `q` |
| `Text.ILikeContains` | app.py:228 | for a wildcard-free search, `title ILIKE '%q%'` holds iff the lower-cased title contains the lower-cased search |
| `Text.UnderscoreIsWildcard` | app.py:228 | a search of `_` matches every non-empty title: the search text is a pattern, not a literal |
| `Records.UserIndex` | app.py:82-84 | finds the user row with the given id, and finds one iff such a row exists (the user loader behind the login guard) |
| `Records.PaperIndex` | app.py:243-244 | finds the paper row with the given id, and finds one iff such a row exists |
| `Records.Consistent` | app.py:36-68 | the schema's invariant (keys distinct and below the next key, unique usernames and emails, foreign keys naming a user, listed categories); under it each next key is unused |
| `Records.ConsistentLookups` | app.py:82-84 | under the invariant, `query.get(id)` (the user loader at 82-84, the paper lookups at 243, 264 and 324) finds the row carrying that key, and every paper owner, sender and recipient can be looked up and is below the next user key |
| `Records.AddUserConsistent` | app.py:36-42 | inserting a user under the next key, with a username and email no user has, keeps keys, unique columns and foreign keys intact |
| `Records.ReplaceUserConsistent` | app.py:165-173 | overwriting the current user's row, keeping its id, with a username and email no other user has, keeps every constraint |
| `Records.AddPaperConsistent` | app.py:208-210 | inserting a paper under the next key, owned by a user and in a listed category, keeps every constraint |
| `Records.RemovePaperConsistent` | app.py:249-250 | deleting a paper row keeps every constraint |
| `Records.ReplacePaperConsistent` | app.py:339-345 | updating a paper in place, keeping its id and owner and with a listed category, keeps every constraint |
| `Records.AddMessageConsistent` | app.py:299-301 | inserting a message under the next key between two existing users keeps every constraint |
| `Records.RemovePaperKeepsOthers` | app.py:249-250 | deleting the row with a given key removes exactly that paper: every other paper remains |
| `Records.NotesNameTheirSubject` | app.py:112 | the registration text names the username; the deletion text (line 254) names the title; the collaboration text (line 268) names the owner and the title |
| `Queries.Login` | app.py:124-130 | success names a user with that username whose stored hash is the hash of the password; an unknown username and a wrong password both give the same `InvalidCredentials` |
| `Queries.LoginIff` | app.py:124-128 | with unique usernames, login as user `id` succeeds iff that user has the username and the hash of the password |
| `Queries.LoginAfterRegister` | app.py:106-109 | a user stored with a fresh username and the hash of a password can log in with that password |
| `Queries.FirstMatch` | app.py:159 | the first user in storage order whose username or email matches; none iff no user matches |
| `Queries.EditRefused` | app.py:159-162 | the edit is refused iff the first user, in storage order, whose username or email matches is another user |
| `Queries.EditRefusedIsClash` | app.py:159-162 | the profile-edit guard only refuses when another user really has the username or email |
| `Queries.EditGuardMissesClash` | app.py:159-160 | the guard can let through an edit whose email belongs to another user (the first match is the current user) |
| `Queries.Dashboard` | app.py:137 | the dashboard lists exactly the papers the user owns |
| `Queries.Explore` | app.py:222-233 | explore lists a sub-list of the stored papers, and with a category chosen only papers of that category |
| `Queries.ExploreOnePaper` | app.py:227-233 | with a blank search, browsing a category over a one-paper table lists that paper exactly when it is filed under the category |
| `Queries.ExploreEverything` | app.py:222-233 | with a blank search and no category, explore returns every paper, in storage order |
| `Queries.ExploreMembers` | app.py:222-233 | for a wildcard-free search, a paper is listed iff its title contains the stripped search case-insensitively and, when a category is chosen, its category equals it; an empty filter is skipped |
| `Queries.ExploreIntersection` | app.py:227-231 | the two filters compose by AND: search and category together select what the category filter keeps of the search result |
| `Queries.UploadedPaperExplorable` | app.py:230-231 | a stored paper is listed under a chosen category iff that is its category |
| `Queries.Thread` | app.py:304-307 | the thread between A and B holds only stored messages whose sender and recipient are A and B, in one order or the other |
| `Queries.ThreadMembers` | app.py:304-307 | the thread holds exactly the messages sent from A to B or from B to A |
| `Queries.ThreadSymmetric` | app.py:304-307 | the thread for (A, B) equals the thread for (B, A), message for message |
| `Queries.ThreadAfterPost` | app.py:298-307 | storing a message appends it to the thread it belongs to and leaves every other thread unchanged |
| `Queries.Partners` | app.py:280-286 | the partner list holds only stored users, never the current user |
| `Queries.PartnersIff` | app.py:280-286 | a user is a chat partner iff they are not the current user and a message went between them in either direction |
| `Queries.PartnersDistinct` | app.py:280-286 | the partner list has no duplicates |
| `Queries.PartnersAfterPost` | app.py:280-286 | after A sends a message to B, B is among A's partners and A among B's |
| `Queries.PostEffects` | app.py:298-307 | a stored message extends the thread between its sender and recipient, as seen from either side, and makes the recipient a partner of the sender |
| `Application.ScholarConnect.constructor` | app.py:80 | the application starts with empty tables and an empty notification log |
| `Application.ScholarConnect.LoggedIn` | app.py:82-84 | a request is authenticated iff the user loader finds a row with the session's id |
| `Application.ScholarConnect.InsertUser` | app.py:107-109 | inserting a user under the next key, with a new username and email, appends exactly that row, advances the user key, keeps the invariant and changes nothing else |
| `Application.ScholarConnect.RemovePaper` | app.py:249-250 | deleting a paper row removes exactly the paper with that key, keeps the invariant and changes nothing else |
| `Application.ScholarConnect.StoreMessage` | app.py:298-300 | inserting a message between two users appends exactly that row, keeps the invariant, extends their thread by it as seen from either side, makes the recipient a partner of the sender and changes nothing else |
| `Application.ScholarConnect.Register` | app.py:93-115 | mismatched passwords change nothing; an empty password makes the bcrypt hash at line 106 raise, a server error with no change; a username or email in use fails the commit and changes nothing; otherwise exactly one user is added with the hashed password, exactly one notification naming the username is logged, and the user can log in with that password |
| `Application.ScholarConnect.EditProfile` | app.py:150-175 | refused with no change when the first matching user is someone else; a clash the guard misses fails the commit with no change; otherwise the row is overwritten in place, the hash is replaced only for a non-empty password, nothing else changes and the user can log in with the new username and password |
| `Application.ScholarConnect.Upload` | app.py:189-213 | a missing field or file, or a category outside the ten, changes nothing; otherwise exactly one paper owned by the current user is added; the notification log never changes |
| `Application.ScholarConnect.DeletePaper` | app.py:242-258 | an unknown id changes nothing; otherwise exactly that paper is removed, all others remain, and one notification with its title is logged; no ownership check |
| `Application.ScholarConnect.Collaborate` | app.py:263-272 | an unknown paper is a 404; otherwise the owner is looked up, a notification naming owner and title is logged, the requester goes to the chat with the owner, and no table changes |
| `Application.ScholarConnect.Dashboard` | app.py:134-138 | without a logged-in user the answer is a 401; otherwise the page lists exactly the papers the user owns, and nothing changes |
| `Application.ScholarConnect.Chats` | app.py:277-288 | returns the partner list, which never contains the current user and has no duplicates |
| `Application.ScholarConnect.ChatInbox` | app.py:293-311 | a non-empty message appends exactly one message from the current user to the recipient; the thread grows by it, seen from either side; an empty message or a GET changes nothing and shows the thread |
| `Application.ScholarConnect.ModifySubmission` | app.py:323-348 | a non-owner or an unlisted category changes nothing; for the owner, an empty title or description keeps the old value, the category is always replaced, and file, owner and all other papers are unchanged |

## Left out

- Flask routing, templates and flash texts are not modelled. Redirects and flashes are `Outcome` values. The GET forms of register, login, edit_profile and upload only render a page and are not modelled.
- `Application.ScholarConnect.ModifySubmission` models the POST only. The GET runs the same 404 and owner checks (app.py:324-328) and then renders the form; that page is not modelled.
- The index, profile, logout and notifications_page routes are not modelled. They render pages or end the session, and change no table. notifications_page shows the `notifications` field as it is.
- `Queries.Login`: absent form fields are not modelled. An absent username becomes `username = NULL`, which matches no row, so the login fails; the model has no absent username, and its empty username would match a user registered with the empty username. An absent password makes the bcrypt check raise a `TypeError`, a server error (app.py:126), which is not modelled.
- Login sessions are not modelled. `Queries.Login` returns the user id that `login_user` would store, and the caller passes it back as `me`.
- bcrypt is not modelled: its hashes are salted and its check is a library call. Hashing is an arbitrary function, and a check compares hashes. The one error path kept is Flask-Bcrypt's refusal to hash an empty password, which `Register` answers with `ServerError`; the bcrypt library itself is not part of this model.
- `secure_filename` and `file.save` are not modelled: they are a library sanitiser and disk I/O. The stored path is `uploads/` followed by the sanitiser's result, and a failed disk write is not modelled.
- Absent form fields are modelled as empty strings where the code treats them alike (upload, modify_submission, chat). Registration's `request.form[...]` rejects an absent field with a 400, which is not modelled. So is the NOT NULL failure of an edit_profile with absent fields.
- Column length limits (`String(50)` and the rest) are not modelled. Whether they are enforced depends on the database.
- Failed inserts do not use up key values in the model. A real sequence may skip them. No modelled property depends on the key values.
- ILIKE case-folding is ASCII only. The pattern semantics are PostgreSQL's, where a backslash escapes; on SQLite a backslash is an ordinary character.
- Foreign keys are enforced, as on PostgreSQL. SQLite does not enforce them by default, and there a message to an unknown user would be stored; that behaviour is not modelled.
- The except branch of `delete_paper` is not modelled: no constraint can fail deleting a paper row.
- Concurrent appends to the notification log are not modelled, since each request runs as one atomic method.
- `.all()`, `.first()` and `distinct()` have no ORDER BY. The model uses storage order, and nothing is proved about order beyond it.
