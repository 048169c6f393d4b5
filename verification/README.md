# nest-learn-api: courses, course controller checks and user validation in Dafny

This project models the parts of the nest-learn-api backend that carry logic of
their own. The rest of the backend is HTTP and persistence glue.

- **Course service** (`Courses.CourseService`). This is a class over two stores:
  the course collection, a `map` from document id to `Course`, and the set of
  activity ids that exist. Create, add-activity, update, delete and
  remove-activity each reassign the map, and get only reads it. The
  contracts of the ones that write state the new map outright, including the
  not-found cases and the rule that other courses do not change.
- **Activity list algebra** (`Courses.Without`, `Courses.NoDuplicates`). The
  `filter` used by remove-activity is a function. It is proved to drop every
  copy of the id and to keep everything else: the same multiset minus that id,
  in the same relative order. It is also proved idempotent, proved to undo a
  fresh append, and proved to keep a list duplicate-free.
- **Course controller** (`CourseApi`). It holds:
  - bearer-token extraction, over a faithful model of `split(' ')`;
  - the admin test, "some role is named `admin`";
  - the shared authorization prefix of every mutating handler;
  - each handler as a method on `CourseController`. The method's contract gives
    the order of the checks, the status that each failing check throws, and the
    new store on success.
- **User service** (`Users.UserService`). This is a class over the user
  collection, a `seq` in the database's natural order, so `findOne` is the
  first match. It covers:
  - sign-up validation and insertion;
  - the login check sequence;
  - username change;
  - the exact-field lookups and the case-insensitive prefix lookups.

  The `^\S+@\S+\.\S+$` email test is a scan-based checker proved equivalent to
  an index description of the regex's language.

The source's side channels become parameters:
- The identity provider's userinfo and role calls are the function fields of
  `CourseApi.IdentityProvider`.
- bcrypt and jwt are the function fields of `Users.Crypto`.
- Clock readings are `now` parameters.
- The ids the database hands out are `id` parameters. Each is required to be
  fresh, which ObjectId generation guarantees.

Two observations came out of the invariant proofs:
- The duplicate-free activity list is preserved by the controller's add
  (`CourseApi.CourseController.AddActivityToCourse`), by remove and by delete.
  The service's own add does no duplicate check.
- `createCourse` and `updateCourseById` store whatever `activities` list the
  request body carries. A body with `["a", "a"]` puts a duplicate in the store.
  So those two keep the invariant exactly when the body's own list is
  duplicate-free or, for an update, absent. Both directions are stated on
  `CourseApi.CourseController.CreateCourse` and
  `CourseApi.CourseController.UpdateCourseById`.

## Model

| member | source | states |
|---|---|---|
| `Courses.CourseService.CreateCourse` | src/courses/courses.service.ts:19-25 | the stored course takes its fields from the body; `created_by` is the caller-supplied user id, `created_at` the given time; only the new id is added to the table |
| `Courses.CourseService.AddActivityToCourse` | src/courses/courses.service.ts:27-40 | missing course, then missing activity, give not-found with the table unchanged; otherwise the id is appended at the end of that course's list, which grows by one with earlier entries kept, and no other course changes; no duplicate check |
| `Courses.CourseService.GetCourseById` | src/courses/courses.service.ts:48-50 | returns the stored course exactly when the id is present |
| `Courses.CourseService.UpdateCourseById` | src/courses/courses.service.ts:54-60 | not-found with the table unchanged when the id is absent; otherwise only that course changes, to the stored course overridden by the body's fields |
| `Courses.CourseService.DeleteCourseById` | src/courses/courses.service.ts:64-72 | not-found with both collections unchanged when absent, since the lookup throws before the cascade; otherwise returns the deleted course, removes exactly that id from the table, and removes exactly the activity documents the cascade matches |
| `Courses.CourseService.RemoveActivityFromCourse` | src/courses/courses.service.ts:74-87 | missing course or missing activity document gives not-found with the table unchanged, even when the id is still listed; otherwise only that course's list changes, to `Without(list, id)` |
| `Courses.Without` | src/courses/courses.service.ts:85 | the result never contains the removed id, holds every other id exactly when the input does, and is no longer than the input |
| `Courses.WithoutMultiset` | src/courses/courses.service.ts:85 | the result's multiset is the input's with the removed id's count set to zero: every other occurrence is kept |
| `Courses.WithoutKeepsOrder` | src/courses/courses.service.ts:85 | any two kept entries appear in the result in their original relative order |
| `Courses.WithoutPosition` | src/courses/courses.service.ts:85 | a kept entry lands right after the kept entries that preceded it |
| `Courses.WithoutConcat` | src/courses/courses.service.ts:85 | filtering distributes over concatenation |
| `Courses.WithoutAbsent` | src/courses/courses.service.ts:85 | filtering out an id the list does not hold changes nothing |
| `Courses.WithoutIdempotent` | src/courses/courses.service.ts:85 | removing the same id twice gives the same list as removing it once |
| `Courses.RemoveUndoesAppend` | src/courses/courses.service.ts:38 | removing an id just appended to a list that did not hold it gives the original list back |
| `Courses.WithoutKeepsNoDuplicates` | src/courses/courses.service.ts:85 | removal keeps a duplicate-free list duplicate-free |
| `Courses.AppendFreshKeepsNoDuplicates` | src/courses/courses.controller.ts:87-96 | appending an id not already listed keeps a duplicate-free list duplicate-free |
| `Courses.MergeKeepsActivities` | src/courses/courses.service.ts:55 | an update body without an `activities` field leaves the list, and so its duplicate-freedom, as it was |
| `Courses.NewCourse` | src/courses/courses.service.ts:19-22 | the new document's author is the caller's id and its creation time the given clock reading, whatever the body says |
| `Courses.NewCourseIgnoresBodyAuthorship` | src/courses/courses.service.ts:20-22 | a body's own `created_at` and `created_by` have no effect on the stored course |
| `Courses.Merge` | src/courses/courses.service.ts:55 | each field the body carries replaces the stored one and every other field keeps its stored value; the scope of this reading is the `Courses.Merge` line under "Left out" |
| `Courses.MergeIdempotent` | src/courses/courses.service.ts:55 | sending the same update body twice stores the same document as sending it once |
| `CourseApi.Split` | src/courses/courses.controller.ts:20 | `split(' ')` yields at least one part and no part contains a space |
| `CourseApi.JoinSplit` | src/courses/courses.controller.ts:20 | joining the parts with single spaces gives the header back, so splitting loses nothing |
| `CourseApi.SplitWord` | src/courses/courses.controller.ts:20 | a string without spaces is one part |
| `CourseApi.SplitFirstWord` | src/courses/courses.controller.ts:20 | a space-free word followed by a space is the first part, and the remainder is split independently |
| `CourseApi.ExtractTokenFromHeader` | src/courses/courses.controller.ts:19-22 | a missing header yields no token and a token never contains a space; its full meaning is given by `CourseApi.JoinSplit`, `CourseApi.ExtractBearerToken`, `CourseApi.ExtractOtherScheme` and `CourseApi.ExtractedTokenShape` |
| `CourseApi.ExtractBearerToken` | src/courses/courses.controller.ts:19-22 | `Bearer <t>` yields `t`, and so does `Bearer <t> <anything>`: only the first two parts are used |
| `CourseApi.ExtractOtherScheme` | src/courses/courses.controller.ts:19-22 | any first word other than exactly `Bearer`, such as `bearer`, yields undefined, with or without a second part |
| `CourseApi.ExtractedTokenShape` | src/courses/courses.controller.ts:19-22 | conversely, a token is returned only for a header that is `Bearer`, a space, the space-free token, then nothing or a space and anything |
| `CourseApi.ExtractExamples` | src/courses/courses.controller.ts:19-22 | `Bearer a b` gives `a`; `bearer a` gives undefined |
| `CourseApi.HasAdminRole` | src/courses/courses.controller.ts:44 | true exactly when some role in the list is named `admin` |
| `CourseApi.Authorize` | src/courses/courses.controller.ts:24-47 | a failed user lookup is 404; a failed roles call is a non-HTTP error (500 once rethrown); a user whose fetched roles hold no `admin` role is 403 and nothing else is; success exactly when the user and roles are fetched and an admin role is present, yielding the user's `sub` |
| `CourseApi.MissingTitle` | src/courses/courses.controller.ts:59 | the handlers' title test fails for a missing title and for an empty one alike |
| `Http.Rethrow` | src/courses/courses.controller.ts:66-72 | an HttpException is rethrown with its own status; any other error becomes 500 |
| `CourseApi.CourseController.CreateCourse` | src/courses/courses.controller.ts:52-73 | authorization failure, then a missing or empty title (400), each leave the store unchanged; otherwise 201 and exactly one new course, stored under the fresh id, holding the body's title, description, list and image, the authorized user as `created_by` and the clock reading as `created_at`; duplicate-free lists stay so when the body's list is duplicate-free, and a successful create with a duplicate in the body's list breaks that invariant |
| `CourseApi.CourseController.AddActivityToCourse` | src/courses/courses.controller.ts:75-106 | order: authorization, course exists (404), not already listed (400), activity exists (404), then append with 200; every failure leaves the store unchanged; duplicate-free lists stay duplicate-free |
| `CourseApi.CourseController.GetCourseById` | src/courses/courses.controller.ts:119-134 | 404 when absent, otherwise the stored course |
| `CourseApi.CourseController.GetActivitiesByCourseId` | src/courses/courses.controller.ts:136-156 | 404 when the course is absent; otherwise one entry per listed id, in list order, that is the activity when it exists and null otherwise |
| `CourseApi.CourseController.UpdateCourseById` | src/courses/courses.controller.ts:163-188 | authorization, then existence (404) before the title (400), then only that course is replaced by the merge with 200; duplicate-free lists stay so when the body carries no list or a duplicate-free one, and a successful update whose body list holds a duplicate breaks that invariant |
| `CourseApi.CourseController.DeleteCourseById` | src/courses/courses.controller.ts:193-214 | authorization, then 404 when absent, each with both collections unchanged; otherwise 200, exactly that id leaves the table and exactly the cascaded activities leave the activity collection; duplicate-free lists stay so |
| `CourseApi.CourseController.RemoveActivityFromCourse` | src/courses/courses.controller.ts:216-239 | authorization, course exists (404), then the service's activity check (404); on success the id no longer occurs in that course's list, no other course changes, and duplicate-free lists stay so |
| `Users.WellFormedSignUp` | src/users/user.service.ts:52-55 | true exactly when username, email and password are non-empty and the role is exactly `admin` or `student` |
| `Users.IsValidEmail` | src/users/user.service.ts:58-61 | the scan accepts exactly the strings of `^\S+@\S+\.\S+$`: no whitespace, an `@` after at least one character, and a `.` at least two characters after it and before the last character |
| `Users.ValidEmailFromParts` | src/users/user.service.ts:58 | any non-empty, whitespace-free run, `@`, run, `.`, run is accepted |
| `Users.EmailExamples` | src/users/user.service.ts:58-61 | accepts `ana@mail.com` and `a@b.c.d`; rejects `ana@mail`, `a@.c`, `@mail.com` and `ana @mail.com` |
| `Users.HasPrefixIgnoringCase` | src/users/user.service.ts:22-24 | true exactly when the pattern is no longer than the field and agrees with its start up to ASCII case |
| `Users.PrefixOfItself` | src/users/user.service.ts:31-33 | every name matches itself and every re-cased prefix of itself |
| `Users.FindAll` | src/users/user.service.ts:31-33 | a user is in the result exactly when it is stored and matches the filter; with `Users.FindAllMultiset` and `Users.FindAllOrder`, the result is exactly the matching entries in collection order |
| `Users.FindAllConcat` | src/users/user.service.ts:31-33 | `find` over two stretches of the collection is `find` over the first followed by `find` over the second |
| `Users.FindAllMultiset` | src/users/user.service.ts:31-33 | each matching entry occurs in the result as often as it is stored, and no other entry occurs |
| `Users.FindAllPosition` | src/users/user.service.ts:31-33 | a matching entry lands right after the matches that precede it in the collection |
| `Users.FindAllOrder` | src/users/user.service.ts:31-33 | the position property for every matching entry at once |
| `Users.FindFirst` | src/users/user.service.ts:64 | the position of a matching user with no match before it, or none when no stored user matches |
| `Users.FindFirstIsHeadOfFindAll` | src/users/user.service.ts:22-34 | `findOne` finds nothing exactly when `find` returns nothing, and otherwise returns the head of `find`'s list |
| `Users.UserService.FindOneByUsername` | src/users/user.service.ts:22-25 | a stored user whose name starts with the pattern, ignoring case, and the first of those `GetUsersByUsername` lists; none when no name matches |
| `Users.UserService.GetUsersByUsername` | src/users/user.service.ts:31-34 | exactly the stored users whose username starts with the pattern, ignoring case, each as often as stored and in collection order |
| `Users.UserService.GetUsersByRole` | src/users/user.service.ts:40-43 | exactly the stored users whose role starts with the pattern, ignoring case, each as often as stored and in collection order |
| `Users.UserService.GetUserById` | src/users/user.service.ts:27-29 | a stored user with that id, or none when no user has it; when ids are unique, it is the only user with that id |
| `Users.UserService.GetUserByEmail` | src/users/user.service.ts:36-38 | a stored user with that email, or none when no user has it; when emails are unique, it is the only user with that email |
| `Users.UserService.ExactNameIsFound` | src/users/user.service.ts:22-25 | a stored user's exact name always finds some user |
| `Users.UserService.SignUp` | src/users/user.service.ts:50-81 | 400 for an empty username, email or password or a role other than `admin`/`student`; then 400 for a malformed email; then 409 for a taken username before 409 for a taken email; each failure adds nobody; well-formed input with a free name and email always succeeds, and success appends exactly one user with the given name, email, role and hashed password, and keeps ids, names and emails unique |
| `Users.UserService.Login` | src/users/user.service.ts:84-104 | 400 for a missing field, then 404 for an unknown username, then 401 when the password does not match the stored hash; otherwise the user's id and a token signed for it at the login time; when names are unique, the id is that of the only user with that name |
| `Users.UserService.UpdateUser` | src/users/user.service.ts:110-139 | an invalid token is 401; a name held by any user, the caller included, is 409 with nothing changed; it is never 404, because the guard tests the decoded token; a missing user fails with a non-HTTP error; a valid token for a stored user and a free name always succeeds, and success changes only that user's username and keeps uniqueness |
| `Users.SignUpThenLogIn` | src/users/user.service.ts:50-104 | after a successful sign-up, logging in with the same name and password returns the same id with a token issued at the login time, so the two tokens agree when both are issued at the same time; well-formed input with a free name and email does sign up and log in; given that bcrypt accepts a password against its own hash |

## Left out

- The identity provider's HTTP calls (userinfo and roles, src/courses/courses.controller.ts:24-47) are network I/O. They are the function fields of `IdentityProvider`: a failed userinfo call is `None`, which the source turns into 404, and a failed roles call is `None`, which is a non-HTTP error and therefore 500.
- `Auth0Guard`, `auth0Access`, bcrypt and jwt are external libraries. bcrypt's salted hash is modelled as a deterministic function. jwt's `sign` takes the user id and the issue time, which stands for the `iat` and `exp` claims it stamps; the signing key and the 24-hour lifetime are fixed inside it. jwt's `verify` yields the `userId` claim, or `None` for a JsonWebTokenError; it takes no clock reading, so an expired token is not told apart from any other invalid one. A valid token without that claim behaves like a token naming an id that is not stored.
- Whitespace for the email regex follows JavaScript's `\s` table. The email test runs in JavaScript and its language is modelled exactly.
- `Users.HasPrefixIgnoringCase`: models the prefix patterns as literal text and folds only ASCII letters. The source builds an unescaped regular expression that the database evaluates. Patterns with regex metacharacters, and case folding of non-ASCII letters, are not modelled.
- Timestamps (`new Date()`) are the `now` parameters. The float division in sign-up's timestamp is not modelled.
- `Courses.CourseService.DeleteCourseById`: the cascade `deleteMany({ course: ... })` (src/courses/courses.service.ts:70) filters on a field the activity schema does not declare. Which documents it matches depends on how the database library treats unknown filter fields: none when the filter is kept, all of them when the unknown path is stripped. The matched set is therefore the `cascaded` parameter rather than a function of the course.
- `Courses.Merge`: models the update as plain field replacement by the fields the body carries. Mongoose's casting, strict-mode stripping of unknown fields and schema validation on `findByIdAndUpdate` are not modelled.
- Schema validation on save (`required` fields, the unique indexes as a source of errors) is not modelled. The title check in the controller precedes every create and update. `UserService.Valid` states as an invariant what the unique indexes guarantee.
- Ids are opaque strings. A malformed ObjectId passed to `findById` makes the source throw a cast error, which the course handlers turn into 500. That case is not modelled.
- Empty inputs are modelled as empty strings. JavaScript's other falsy values (`undefined`, `null`) for `username`, `email`, `password` and `title` behave the same in the source and are not distinguished.
- The Spanish response messages are not modelled. Only the statuses are.
- `getAllCourses` and `getAllUsers` (src/courses/courses.service.ts:44-46, src/courses/courses.controller.ts:110-117, src/users/user.service.ts:18-20) return the whole collection and have no logic of their own.
- The activity services and controllers, the user controller, the auth module, the schemas (used only as datatype shapes) and the framework wiring are not part of this model. The copies of `extractTokenFromHeader` in the activity and user controllers are identical to the modelled one.
- Concurrency between requests is not modelled. Each handler runs to completion before the next starts.
