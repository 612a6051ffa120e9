# Friend word-map portal: verified model of the user controller

This project models the in-memory behaviour of the portal's user back end in
Dafny. In the portal, users log in with a shared access code and attach one
word to each other user's profile. Administrators manage the roster and a
process-wide map-feature flag.

The model covers three files of the original back end:

- `backend/models/User.js`: the user document (`UserSchema`). The `trim`
  setter and the `required` validators on `name` and `accessCode` are
  modelled. So are the field defaults (`isAdmin` false, `profilePicture` "",
  `wordMapVisible` false, no word inputs) and the optional `targetUser`
  reference of a word-input entry.
- `backend/controllers/authController.js`: `login` (`Auth.Login`). It is a
  pure function of the roster. The signed token is kept abstract as its
  payload `(userId, isAdmin)`. The response profile type has no access-code
  field.
- `backend/controllers/userController.js`, in three modules:
  - `WordLedger`: the per-user logic of `addWordInput` and `updateWordInput`.
  - `RosterQueries`: the read-only handlers `getWordInputs`, `getAllUsers`
    and `getAvailableUsers`, as functions.
  - `UserController.UserService`: a class that owns the collection and the
    `isMapFeatureEnabled` flag. Its methods are the state-changing handlers.

The collection is a `map<UserId, User>` together with `order`, the ids in the
collection's natural order, which is the order the queries return documents
in. The store hands out ids from a counter, so an id is never reused. A
reference to a deleted user therefore stays dangling. `Store.RosterOk` is
the collection invariant that every class method keeps (request ids are
taken in canonical form; see "Left out"):
- every document is listed once and carries its own id;
- names and access codes are present and trimmed;
- access codes are unique;
- each user has at most one entry per target.

Every handler result is a datatype: `UserController.Response`,
`Auth.LoginResult`, or the query results. Where the source throws and the
`catch` answers 400, the model answers `BadRequest`.

Edge cases of the code that the model keeps:

- `addWordInput` looks for the caller's entry with
  `input.targetUser.toString()`. If an entry without a target comes before
  any entry for the requested target, this throws. The handler then answers
  400 and stores nothing (`WordLedger.Find` returns `Throws`).
- If the caller's document no longer exists, `addWordInput` reads
  `user.wordInputs` of null, which throws and gives 400. In the same case,
  `updateWordInput` gives 404.
- `addWordInput` with an empty word fails the schema's `required` check on
  `save`, so it answers 400 and changes nothing. `updateWordInput` uses
  `findOneAndUpdate`, which runs no validators, so it stores an empty word.
- `getWordInputs` filters the populated entries. `populate` turns a reference
  to a deleted user into null, so a target that is not in the roster gets an
  empty list.
- `getAvailableUsers` fetches the caller's own document with its access code.
  If that document is gone, the first element of the answer is null.
- `updateWordInput` can store an empty word, but every `save` validates all
  entries of the document. After that, `toggleWordMapVisibility` for the user
  answers 400, and so does `addWordInput`, until an `addWordInput` for the
  same target overwrites the empty word (`Scenarios.EmptyWordBlocksSaves`).
- `login` compares the stored code with the trimmed request value. The reason
  is that Mongoose applies a path's `trim` setter when it casts query values.

## Model

| member | source | states |
|---|---|---|
| UserSchema.NewUser | backend/models/User.js:3-39 | a new user is created exactly when the trimmed name and access code are both non-empty; it stores them trimmed, with `isAdmin` false, `profilePicture` "", `wordMapVisible` false and no word inputs, and it is well formed |
| UserSchema.Trim | backend/models/User.js:4-14 | the stored value of a `trim: true` path has no white space at either end |
| UserSchema.TrimStart | backend/models/User.js:4-14 | dropping leading white space leaves a suffix of the input, and everything dropped is white space |
| UserSchema.TrimEnd | backend/models/User.js:4-14 | dropping trailing white space leaves a prefix of the input, and everything dropped is white space |
| UserSchema.TrimEmptyIffBlank | backend/models/User.js:4-14 | a trimmed value is empty, and so fails `required`, exactly when the input is all white space |
| UserSchema.TrimIdempotent | backend/models/User.js:4-14 | trimming a stored value again changes nothing |
| UserSchema.TrimmedIffFixed | backend/models/User.js:4-14 | a value has no white space at its ends exactly when the setter leaves it unchanged |
| Store.FindByCode | backend/controllers/authController.js:9 | `findOne({ accessCode })` returns a document that holds the code, or reports that no listed document holds it |
| Store.FindByCodeExact | backend/controllers/authController.js:9-12 | on a well-formed roster, the lookup returns a given id exactly when that document holds the code |
| Store.FindByCodeNone | backend/controllers/userController.js:35-39 | on a well-formed roster, the lookup finds nothing exactly when no document holds the code |
| Store.RosterOkInsert | backend/controllers/userController.js:35-36 | saving a well-formed document under a new id, with a code no other document holds, keeps the collection invariant |
| Store.RosterOkReplace | backend/models/User.js:9-14 | replacing a document by one with the same id, name and code, and still one entry per target, keeps the invariant |
| Store.RosterOkDelete | backend/controllers/userController.js:47 | deleting a document keeps the collection invariant |
| Store.Removed | backend/controllers/userController.js:47 | after a delete, the natural order holds exactly the other ids, still each once |
| Store.View | backend/controllers/userController.js:23-24 | a populated query result has the document's fields, with the access code present exactly when it is not projected away, and every entry's `targetUser` replaced by its `_id name profilePicture` summary, or null when dangling |
| Store.Resolve | backend/controllers/userController.js:24 | `populate` gives a summary exactly for a reference that is set and points to an existing document |
| Auth.Login | backend/controllers/authController.js:4-29 | on success the token payload is the matched user's id and `isAdmin`, and the profile is exactly `id`, `name`, `isAdmin`, `profilePicture` of the user whose code equals the trimmed input |
| Auth.LoginExact | backend/controllers/authController.js:9-29 | on a well-formed roster, login answers 401 exactly when no user holds the trimmed code; otherwise it logs in as the one user who does |
| Auth.BlankCodeRejected | backend/controllers/authController.js:9-12 | an empty or blank code is always rejected with 401 |
| Auth.FindByCodeOtherThan | backend/controllers/authController.js:9 | `findOne` with a `$ne` operator returns the first document whose code differs, or reports that every listed document holds that code |
| Auth.Selected | backend/controllers/authController.js:10-28 | no document gives 401; a selected document gives its id and `isAdmin` as token payload and its four public fields as profile |
| Auth.FirstListed | backend/controllers/authController.js:9 | `findOne` with an empty filter returns the first existing document in natural order, and nothing only when none exists |
| Auth.LoginAsWritten | backend/controllers/authController.js:4-29 | the login as written: a string code behaves as `Auth.Login`; any success speaks for an existing user, with that user's payload and profile |
| Auth.MissingCodeLogsInAsFirst | backend/controllers/authController.js:6-9 | a body without `accessCode` logs in as the first user of the collection |
| Auth.OperatorLogsInAsFirst | backend/controllers/authController.js:6-9 | the body `{ "accessCode": { "$ne": "" } }` logs in as the first user of the collection without knowing any code |
| Auth.LoginChecked | backend/controllers/authController.js:6-12 | with the request value checked to be a string, a success is always the string login |
| Auth.LoginCheckedNeedsCode | backend/controllers/authController.js:6-12 | with the check, a login succeeds exactly when the request carries, as a string, a code that some user holds |
| WordLedger.Find | backend/controllers/userController.js:68-70 | `find` returns the first entry for the target, or none if every entry has another non-null target; it throws exactly when an entry without a target comes before any match |
| WordLedger.IndexOfTarget | backend/controllers/userController.js:236-244 | the positional `$` match is the first entry whose target is the given id, or there is none |
| WordLedger.FindAgreesWithPositional | backend/controllers/userController.js:68-70 | when `find` does not throw, it stops at the same entry as the positional update: both act on the first match |
| WordLedger.SetWord | backend/controllers/userController.js:74 | setting a word changes only that entry's word; the length, the target and every other entry are unchanged |
| WordLedger.UpsertedContents | backend/controllers/userController.js:72-83 | after the upsert, the first entry for the target holds the new word; the list grows by one at the end only when there was no entry; other entries are unchanged |
| WordLedger.UpsertedCount | backend/controllers/userController.js:72-83 | after the upsert there is exactly one entry for the target, unless there were already several |
| WordLedger.UpsertedKeepsUnique | backend/controllers/userController.js:72-83 | the upsert keeps at most one entry per target |
| WordLedger.UpsertTwice | backend/controllers/userController.js:72-83 | last write wins: two upserts for the same target give the same result as the second alone |
| WordLedger.SetWordKeepsUnique | backend/controllers/userController.js:239-243 | the positional update keeps at most one entry per target |
| WordLedger.UpsertedWordsPresent | backend/models/User.js:28-31 | the `save` after an upsert passes the `required` word check exactly when the new word is non-empty and so is every entry the upsert leaves untouched |
| WordLedger.CountSetWord | backend/controllers/userController.js:239-243 | changing a word leaves the number of entries for every target unchanged |
| WordLedger.UniqueCountAtMostOne | backend/controllers/userController.js:78-81 | with one entry per target, the count of entries for any target is at most one |
| WordLedger.CountZero | backend/controllers/userController.js:76-82 | no entry counts for a target exactly when no entry names it |
| WordLedger.CountAppend | backend/controllers/userController.js:78-81 | pushing an entry adds one to its target's count and leaves every other target's count unchanged |
| RosterQueries.Matching | backend/controllers/userController.js:123-134 | every submission the filter and map keep names the requested target and carries the author's name |
| RosterQueries.MatchingIsPicked | backend/controllers/userController.js:123-134 | the filter keeps exactly the entries whose target is the requested id, and only while that user exists; each is tagged with the author's name |
| RosterQueries.UserInputsIsContribution | backend/controllers/userController.js:115-134 | a document the query finds contributes its entries for the target; one the query skips contributes nothing it would have kept |
| RosterQueries.ReduceIsFlatten | backend/controllers/userController.js:122-136 | the `reduce` appends each user's submissions, in roster order, to the accumulator |
| RosterQueries.WordInputsForIsFlatten | backend/controllers/userController.js:109-144 | `getWordInputs` is the roster-ordered concatenation of every user's entries for the target, in array order, tagged `submittedBy`; a target that is not in the roster gets an empty list |
| RosterQueries.FlattenAbsentTarget | backend/controllers/userController.js:125 | entries that point to a deleted user are dropped |
| RosterQueries.Picked | backend/controllers/userController.js:123-134 | one user's submissions about a target number as many as that user's entries for it, and all carry the target and the author's name |
| RosterQueries.PickedUnique | backend/controllers/userController.js:123-134 | with one entry per target, a user contributes that entry's word or nothing |
| RosterQueries.FlattenBySubmitters | backend/controllers/userController.js:122-136 | the concatenation holds one submission per user who has an entry for the target, in roster order |
| RosterQueries.Submitters | backend/controllers/userController.js:115-117 | the users who have submitted about the target all exist and hold an entry for it |
| RosterQueries.WordInputsForOnePerSubmitter | backend/controllers/userController.js:109-144 | on a well-formed roster, `getWordInputs(t)` has one element per user with an entry for `t`, in roster order, carrying that entry's word and the user's name |
| RosterQueries.Listed | backend/controllers/userController.js:214-217 | `find(filter, '-accessCode')` returns no access code and never the excluded id |
| RosterQueries.ListedIsViewsOfKept | backend/controllers/userController.js:214-217 | the listing is the projected views of exactly the kept ids, in natural order |
| RosterQueries.Kept | backend/controllers/userController.js:214-215 | the `$ne` filter keeps every id but the caller's, each once |
| RosterQueries.AllUsers | backend/controllers/userController.js:21-29 | `getAllUsers` exposes no access code |
| RosterQueries.AllUsersExactlyOnce | backend/controllers/userController.js:21-29 | `getAllUsers` returns the projected view of every document, each exactly once, in natural order |
| RosterQueries.AvailableUsers | backend/controllers/userController.js:205-222 | the first element is the caller's own record with its access code, or null if the caller no longer exists; every later element is another user without an access code |
| RosterQueries.AvailableUsersExactlyOnce | backend/controllers/userController.js:205-222 | after the caller come the projected views of exactly the other users, each once, in natural order |
| RosterQueries.Found | backend/controllers/userController.js:220 | the documents a query found, wrapped as non-null results in the same order |
| RosterQueries.ViewsOf | backend/controllers/userController.js:214-217 | the projected views of the given ids, one per id, in order |
| UserController.Flipped | backend/controllers/userController.js:195 | the toggle negates `wordMapVisible` and changes no other field |
| UserController.FlippedTwice | backend/controllers/userController.js:195 | toggling twice restores the document |
| UserController.UserService.constructor | backend/controllers/userController.js:18 | a fresh process has an empty, valid collection and the map feature enabled |
| UserController.UserService.AddUser | backend/controllers/userController.js:32-41 | the answer is 400 exactly when the trimmed name or code is empty or the code is already held, and then nothing changes; otherwise 201 with the new default document, added at the end under a fresh id |
| UserController.UserService.Insert | backend/controllers/userController.js:36 | saving a new well-formed document with a free code appends it under the next id and keeps the collection invariant |
| UserController.UserService.RemoveUser | backend/controllers/userController.js:44-52 | success always, also for an absent id; the document is gone and no other document changes |
| UserController.UserService.AddWordInput | backend/controllers/userController.js:55-106 | unknown target gives 404; a missing caller, a throwing `find`, or an upserted list with an empty word (the new word or one already stored) gives 400; in each of these cases nothing changes. Otherwise only the caller's entries change, to the upsert, and the answer says whether an entry was updated and returns the caller's populated document |
| UserController.UserService.UpdateWordInput | backend/controllers/userController.js:230-258 | with no caller entry for the target, 404 and nothing changes; otherwise only the first matching entry's word is set, and no entry is added |
| UserController.UserService.ToggleWordMapVisibility | backend/controllers/userController.js:186-202 | an absent id gives 404; a user with an empty stored word fails the `save` validation with 400; in both cases nothing changes. Otherwise only that user's `wordMapVisible` flips |
| UserController.UserService.ToggleMapFeature | backend/controllers/userController.js:261-264 | the flag flips and the new value is returned |
| UserController.UserService.GetMapFeatureStatus | backend/controllers/userController.js:271-273 | returns the current flag value and changes nothing |
| Scenarios.BobDescribesCarol | backend/controllers/userController.js:55-136 | through the service: Bob's first word about Carol is added and Carol's word map shows it; his second word is an update and the map then shows only that word |
| Scenarios.EmptyWordBlocksSaves | backend/controllers/userController.js:186-256 | through the service: after `updateWordInput` stores an empty word, toggling the user's visibility and adding a word about another user both answer 400, and re-adding the word for the same target succeeds |

## Left out

- Profile-picture upload (`updateProfilePicture` and the multer storage configuration) is not modelled. It is file-system I/O with filenames based on the clock.
- JWT signing, the secret and the 24-hour expiry are not modelled. The token is kept as its payload, and verifying a token is not modelled.
- Authentication and admin middleware, and Express routing, are not modelled. The caller's id is a parameter.
- Mongoose mechanics are not modelled: ObjectId casting and the `CastError` a malformed id causes, timestamps, and the subdocument `_id` of each entry.
- Store failures are not modelled. In `addUser`, `removeUser`, `addWordInput`, `toggleWordMapVisibility` and `updateWordInput` the `catch` turns such a failure into 400 (userController.js:38-39, 49-50, 102-104, 199-200, 254-256); in `getAllUsers`, `getWordInputs`, `getAvailableUsers` and `login` it becomes 500 (userController.js:26-28, 145-147, 223-226; authController.js:29-32).
- Auth.Login: request values are taken to be strings. A JSON object in the body reaches `findOne` unchanged and is read as a query operator; `Auth.LoginAsWritten` models `$ne` only, and other operators (`$gt`, `$regex`, ...) are not modelled. The same holds for the other handlers' body values, which are not modelled as JSON values.
- White space is limited to the ASCII white-space characters, no-break space and the byte-order mark. `String.prototype.trim` also strips other Unicode space separators and line terminators.
- In the user-controller handlers, a value that is missing from the request body is modelled as the empty string. For `name`, `accessCode` and `word` on a `save`, `required` rejects both alike. For `updateWordInput` the model assumes that `$set` of an undefined word stores an empty word. In `login` a missing value is its own case, `Auth.CodeValue.Missing`. The model assumes that Mongoose drops an undefined filter value, so the filter is empty, as its documentation states for `findOne({ _id: undefined })`.
- UserController.UserService.AddWordInput: request ids are taken to be the canonical lower-case form of the stored ObjectId. In the source, `findById` at userController.js:61 accepts hex in either case, but the comparison at :69 with `toString()` is on lower-case hex. So a target id sent in upper case misses its existing entry, and :78-82 pushes a second entry for that target. `getWordInputs` with such an id (:129) returns an empty list. "At most one entry per target" holds only for canonical ids.
- Concurrency is not modelled: the read-modify-write race between concurrent `addWordInput` calls, and a flag that diverges between several server instances.
- The admin seeding script (`backend/scripts/initAdmin.js`) is not modelled. It only looks up a fixed code and otherwise saves an admin user.
- The natural order of the collection is taken to be insertion order. MongoDB does not guarantee this order.

## Findings

| source | as written | input that shows it | evidently intended | confidence | as-written member | corrected member |
|---|---|---|---|---|---|---|
| backend/controllers/authController.js:6-9 | the request value goes into `findOne({ accessCode })` unchanged, so an object is read as a query operator | body `{ "accessCode": { "$ne": "" } }` logs in as the first user of the collection, without any code | only a string code that some user holds logs in; anything else is an invalid access code | not executed | Auth.OperatorLogsInAsFirst | Auth.LoginCheckedNeedsCode |
| backend/controllers/authController.js:6-9 | a body without `accessCode` becomes `findOne({ accessCode: undefined })`, which Mongoose runs as an empty filter | body `{}` logs in as the first user of the collection | a missing code is an invalid access code | not executed | Auth.MissingCodeLogsInAsFirst | Auth.LoginCheckedNeedsCode |
