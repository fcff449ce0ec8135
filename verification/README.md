# Event scheduler backend — a Dafny model

This project models the domain logic of a small event-scheduling web backend
(Express + Mongoose). It covers two stores: a map from event id to event and
a map from user id to user. It also covers the request handlers that read and
write them, and the authentication middleware that guards the protected
routes. The handlers that change a store are pure functions from the store
before a request to the store after it and the answer. Each either fails with
the source's status and message and leaves the store as it was, or performs
exactly one write. `GetEventById` and `Login` are pure functions that never
write. The two list queries, `GetAllEvents` and `GetMyEvents`, are methods
that build a date-sorted list in a loop.

Modules, following the server's files:

- `Text` (`text.dfy`): the JavaScript string operations the code relies on.
  These are `trim` (for the schemas' `trim: true` setters), `toLowerCase`
  (for `lowercase: true`) and `split(" ")` (for the header parser).
- `Base` (`base.dfy`): optional request fields and the definition `Falsy` of
  JavaScript's `!` on an optional string (missing or empty). Also
  the `{success: false, error}` failures, and the `Reply` pair of "store
  afterwards" and "answer".
- `Schema` (`schema.dfy`): the `Event` and `User` records. Also the values
  their setters store, their `required` validators, the unique email index,
  and the public user projection that never holds the password hash.
- `Tokens` (`tokens.dfy`): JWT issue and verify with the 7-day expiry.
  Signing and signature checking are function parameters.
- `AuthMiddleware` (`middleware.dfy`): the `auth` middleware, its three 401
  outcomes, and the route guard.
- `AuthController` (`auth_controller.dfy`): signup and login over the user
  store. bcrypt `hash` and `compare` are function parameters.
- `Lists` (`lists.dfy`): the attendee-array operations used by join and
  leave.
- `EventController` (`event_controller.dfy`): the eight event handlers, the
  date-sorted queries, and the properties that relate several requests.

Things the model fixes as parameters:

- The caller's id (`caller`).
- The id the store assigns to a new record (`freshId`).
- The clock in seconds (`now`).
- ObjectId validity (`isObjectId`).
- The crypto functions (`hash`, `compare`, `sign`, `decode`).

Code behaviours the model keeps:

- Signup returns a token as well as the public user
  (server/src/controllers/authController.js:32-45).
- The middleware never checks that the scheme word is `Bearer`
  (server/src/middlewares/auth.js:10).
- A repeated join (server/src/controllers/eventController.js:160-164) and a
  duplicate email (server/src/controllers/authController.js:18-23) are both
  answered with status 400.
- Attendees are an array. It stays duplicate-free only because of the join
  guard; the schema does not enforce it.
- `findById` on a malformed id throws a cast error. Update, delete, join and
  leave therefore answer 500 for such an id. Only `getEventById` tests the id
  first and answers 400.
- A title, name or email made only of whitespace passes the handlers' falsy
  checks. The setter then trims it to `""`, the `required` validator fails,
  and the handler answers 500 without writing anything.

The caller's identity does not match between the middleware and the event
handlers. The middleware stores the decoded `{ id, email }` claims in
`req.user` (server/src/middlewares/auth.js:17). The event handlers read
`req.user._id` (server/src/controllers/eventController.js:74, 99, 135, 161,
193, 214). The model does not decide this. Every handler that reads
`req.user._id` takes the caller as an explicit parameter, and a comment in `middleware.dfy` and
`event_controller.dfy` records the mismatch. The event routes are not mounted
either: `app.js` mounts only the auth and user routers
(server/src/app.js:14-15). That is wiring, and it is not modelled.

The email setters also run on query filters. So `findOne({ email })` looks up
the normalised email, and the duplicate check at signup ignores letter case
and surrounding spaces. `Text.LowerTrimCommute` proves that the order in which
the two setters run does not matter.

## Model

| member | source | states |
|---|---|---|
| Text.TrimStart | server/src/models/Event.js:8 | leading whitespace only is dropped: the result is a suffix of the input, everything dropped is whitespace, and the result does not start with whitespace |
| Text.TrimEnd | server/src/models/Event.js:8 | trailing whitespace only is dropped: the result is a prefix, everything dropped is whitespace, and the result does not end with whitespace |
| Text.Trim | server/src/models/Event.js:8 | the trim setter's output never starts or ends with whitespace |
| Text.TrimIsSlice | server/src/models/Event.js:8 | the trimmed value is a contiguous slice of the input with only whitespace outside it |
| Text.TrimFixesTrimmed | server/src/models/Event.js:8 | trimming is idempotent and leaves an already trimmed string unchanged |
| Text.Lower | server/src/models/User.js:15 | the lowercase setter keeps the length of the string |
| Text.LowerAt | server/src/models/User.js:15 | the lowercase setter folds each character on its own through ASCII case folding and leaves no upper-case letter |
| Text.LowerFixesLower | server/src/models/User.js:15 | lower-casing leaves a string unchanged exactly when it has no upper-case letter |
| Text.LowerTrimCommute | server/src/models/User.js:15-16 | the lowercase and trim setters commute, so their order does not matter |
| Text.Split | server/src/middlewares/auth.js:10 | `split(" ")` gives one more field than there are spaces, and no field contains a space |
| Text.NoSpacesMeansNone | server/src/middlewares/auth.js:10 | the space count is zero exactly when the header has no space |
| Text.JoinSplit | server/src/middlewares/auth.js:10 | joining the split fields with single spaces gives back the header |
| Text.SplitJoin | server/src/middlewares/auth.js:10 | splitting space-free fields joined by single spaces gives back the fields |
| Text.SplitPrefixed | server/src/middlewares/auth.js:10 | a space-free word followed by a space becomes the first field |
| Schema.TrimField | server/src/models/Event.js:11-24 | an optional field stays absent when absent, and when present it is stored trimmed |
| Schema.ProjectHidesHash | server/src/models/User.js:19-23 | the public projection never depends on the password hash: users that differ only in their hash project to the same value |
| Schema.NormalizeEmail | server/src/models/User.js:11-17 | a stored email is trimmed and has no upper-case letter |
| Schema.NormalizeEmailFixes | server/src/models/User.js:11-17 | normalising fixes exactly the normalised emails, so normalising a stored email leaves it unchanged |
| Tokens.Issue | server/src/controllers/authController.js:32-36 | whenever decoding inverts signing, the issued token decodes to exactly `{id, email}` with `iat` = now and `exp` 604800 seconds (`"7d"`) later |
| Tokens.Verify | server/src/middlewares/auth.js:15-16 | a token verifies exactly when its signature decodes and the clock is before its `exp`, and then yields the decoded claims |
| Tokens.TokenLifetime | server/src/controllers/authController.js:81-85 | when decoding inverts signing, a token issued with `expiresIn: "7d"` verifies to exactly its claims for 604800 seconds and never after |
| AuthMiddleware.TokenField | server/src/middlewares/auth.js:10 | the token field exists exactly when the header holds a space, and it holds no space |
| AuthMiddleware.Authenticate | server/src/middlewares/auth.js:3-21 | the rejections are all 401: "No token provided" exactly for a missing header, "Invalid token format" exactly for a missing or empty second field, "Token invalid or expired" exactly when that field does not verify; the handler runs exactly when it verifies, with exactly the verified claims |
| AuthMiddleware.Guard | server/src/middlewares/auth.js:6-21 | a rejected request leaves the store untouched; an accepted one runs the handler with the decoded claims |
| AuthMiddleware.MissingHeaderNeverReachesHandler | server/src/middlewares/auth.js:6-8 | with no header the answer is 401 "No token provided" and the store is unchanged, whatever the handler |
| AuthMiddleware.TokenIsSecondWord | server/src/middlewares/auth.js:10 | for a header of space-free words, the token is the second word |
| AuthMiddleware.SchemeIgnored | server/src/middlewares/auth.js:10 | any scheme word is treated exactly like "Bearer" |
| AuthMiddleware.SchemeAloneRejected | server/src/middlewares/auth.js:10-13 | a header with no space ("Bearer" alone) gets "Invalid token format" |
| AuthMiddleware.DoubleSpaceRejected | server/src/middlewares/auth.js:10-13 | a double space after the scheme gives an empty token and "Invalid token format" |
| AuthMiddleware.IssuedTokenAccepted | server/src/middlewares/auth.js:15-21 | a token sent as "Bearer <token>" passes with its signed claims until seven days after issue and is refused as invalid or expired afterwards |
| AuthController.Signup | server/src/controllers/authController.js:6-50 | 400 "All fields are required" exactly for a falsy field; 400 "Email already registered" exactly when all fields are truthy and the normalised email is stored; every other failure is 500; every failure leaves the store unchanged; signup succeeds exactly when every field is truthy, the normalised email is not stored yet, the trimmed name, normalised email and hash are non-empty and the new id is unused; success adds exactly one user under a fresh id, with the trimmed name, the normalised email and hash(password), and returns that user's projection and a token for its id and email |
| AuthController.DuplicateEmailRefused | server/src/controllers/authController.js:18-23 | an email already stored after normalisation gives 400 "Email already registered" and no change |
| AuthController.SignupPreservesUniqueEmails | server/src/models/User.js:14 | signup never creates a second user with the same email |
| AuthController.SignupPreservesValidUsers | server/src/models/User.js:3-24 | signup keeps every stored user valid (non-empty trimmed name, normalised email, non-empty hash) and emails unique |
| AuthController.SecondSignupRefused | server/src/controllers/authController.js:18-23 | after a successful signup, a signup with the same email in any case is refused with no change |
| AuthController.FindByEmail | server/src/controllers/authController.js:65 | the login lookup finds a user exactly when one has that email, and returns that user |
| AuthController.Login | server/src/controllers/authController.js:53-99 | falsy fields give 400 "All fields are required"; the only other failure is 400 "Invalid credentials"; login succeeds exactly when a user with the normalised email has a password that `compare` accepts; on success it returns that user's projection and a token for its id and email |
| AuthController.LoginAsStoredUser | server/src/controllers/authController.js:81-94 | a correct login returns a 7-day token for `{id, email}` and the projection `{id, name, email}` of that user |
| AuthController.UnknownEmailLikeWrongPassword | server/src/controllers/authController.js:64-78 | an unknown email and a wrong password give the same answer, 400 "Invalid credentials" |
| AuthController.SignupThenLogin | server/src/controllers/authController.js:25-29 | after a successful signup, logging in with the same email and password succeeds as that user |
| Lists.Without | server/src/controllers/eventController.js:192-194 | the filter removes every occurrence of the caller and keeps every other attendee, as often as before and in the original order |
| Lists.WithoutAbsent | server/src/controllers/eventController.js:192-194 | filtering out an absent caller leaves the list unchanged |
| Lists.WithoutAppended | server/src/controllers/eventController.js:167 | filtering out a caller just appended, who was absent before, restores the list |
| Lists.AppendFresh | server/src/controllers/eventController.js:160-167 | appending a caller who is not yet present keeps the list duplicate-free |
| Lists.WithoutNoDuplicates | server/src/controllers/eventController.js:192-194 | filtering keeps a list duplicate-free |
| EventController.FindById | server/src/controllers/eventController.js:94-96 | the lookup succeeds exactly for a well-formed stored id; otherwise 404 for an unknown id and 500 for a malformed one |
| EventController.Save | server/src/controllers/eventController.js:111 | a save writes exactly that event when the validators pass, and otherwise answers 500 without writing |
| EventController.GetEventById | server/src/controllers/eventController.js:20-55 | 400 "Invalid event ID" exactly for a malformed id, 404 exactly for a well-formed unknown id, otherwise the stored event; it never writes |
| EventController.CreateEvent | server/src/controllers/eventController.js:59-87 | 400 "Title and date required" exactly for a falsy title or date, with no change; every other failure is 500; creation succeeds exactly when the trimmed title is non-empty and the new id is unused; success adds exactly one event owned by the caller, with no attendees and trimmed fields; it keeps the schema invariants and duplicate-free attendees |
| EventController.ApplyUpdate | server/src/controllers/eventController.js:106-109 | each truthy field of the request replaces the stored one (strings trimmed), every other field, the owner and the attendees are kept |
| EventController.UpdateEvent | server/src/controllers/eventController.js:90-126 | 500 for a malformed id, 404 for an unknown id, 403 "Not authorized to edit this event" exactly for a non-owner, all with no change; the owner's only possible failure is 500; the update succeeds exactly for the owner of a stored event when the resulting title is non-empty; the owner's update overwrites only the truthy fields and keeps owner and attendees; invariants are kept |
| EventController.DeleteEvent | server/src/controllers/eventController.js:129-151 | only the owner succeeds; success removes exactly that id and leaves every other event untouched; failures change nothing |
| EventController.JoinEvent | server/src/controllers/eventController.js:154-183 | an attendee already present gives 400 "Already joined this event" with no change; in a valid store, the join otherwise succeeds and appends the caller once at the end; attendees stay duplicate-free |
| EventController.LeaveEvent | server/src/controllers/eventController.js:186-210 | every occurrence of the caller is removed, the others keep their order, nothing else in the event changes, and in a valid store it succeeds for any stored event with a well-formed id |
| EventController.InsertByDate | server/src/controllers/eventController.js:10 | inserting into a date-sorted list keeps it sorted and adds exactly that entry |
| EventController.FindSorted | server/src/controllers/eventController.js:7-10 | the query returns each stored event matching the filter exactly once, in ascending date order |
| EventController.GetAllEvents | server/src/controllers/eventController.js:5-17 | every stored event exactly once, in ascending date order |
| EventController.GetMyEvents | server/src/controllers/eventController.js:212-228 | exactly the caller's own events, each once, in ascending date order |
| EventController.CreateThenGet | server/src/controllers/eventController.js:69-76 | a created event reads back with every supplied field (strings trimmed), owned by its creator and with no attendees |
| EventController.UpdateWithNothingIsNoOp | server/src/controllers/eventController.js:106-109 | an owner's update with no truthy field changes nothing |
| EventController.UpdateIdempotent | server/src/controllers/eventController.js:105-111 | repeating a successful update changes nothing more |
| EventController.DeleteThenGet | server/src/controllers/eventController.js:141 | after a successful delete, looking the event up gives 404 |
| EventController.JoinTwiceRefused | server/src/controllers/eventController.js:160-168 | a second join by the same user is refused and leaves the store unchanged |
| EventController.OwnerMayJoin | server/src/controllers/eventController.js:160-167 | the owner is not excluded from joining their own event |
| EventController.LeaveAbsentIsNoOp | server/src/controllers/eventController.js:192-195 | leaving an event one has not joined succeeds and changes nothing |
| EventController.JoinThenLeave | server/src/controllers/eventController.js:167 | joining and then leaving restores the store exactly |

## Left out

- Text.Lower: folds only the ASCII letters A-Z. JavaScript's `toLowerCase` also folds other Unicode letters, and this model does not cover that.
- Schema.NormalizeEmail: inherits the ASCII-only lower-casing of `Text.Lower`.
- AuthController.Login: requires the store's emails to be unique. The unique index on `email` (server/src/models/User.js:14) guarantees this, and with it `findOne` has exactly one candidate.
- EventController.FindSorted: says nothing about the relative order of events with equal dates. The store leaves that order unspecified.
- bcrypt and jsonwebtoken are foreign code. `hash`, `compare`, `sign` and `decode` are parameters, and bcrypt's salting and cost factor are not modelled. Token claims other than `id`, `email`, `iat` and `exp` are not modelled either.
- The clock, id generation and ObjectId validity are parameters, not computed.
- `populate` is not modelled. The model returns raw owner and attendee ids, not `{name, email}` projections, and never expands dangling references.
- The automatic `createdAt` and `updatedAt` timestamps are not modelled.
- The response envelope (`success`, `message`) and the success statuses (200 or 201) are not modelled. Only failures carry a status.
- Request-body values that are not strings, and date strings that fail to cast, are not modelled. A falsy date such as 0 or an empty string is modelled as absent.
- The 500 answers for database or connection failures are not modelled. Neither are thrown errors other than validation, cast and duplicate-key errors.
- `getProfile` (server/src/controllers/userController.js) is not modelled: it is a single lookup and projection.
- Route wiring, server start-up and the client application are not modelled.
- Concurrency is not modelled. Racing join, leave or update requests are unguarded in the code, and the model is sequential.
