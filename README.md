# TrueFeedback account and messaging core, in Dafny

TrueFeedback is an anonymous-feedback web application. Users sign up,
confirm their email with a six-digit code, and share a profile link.
Anyone may send them a message there while they accept messages. This
project models the decisions the route handlers make above their
database, hashing, mail and session libraries:

- **The user collection** (`users.dfy`). The collection is a sequence of
  `User` records, and a Mongoose filter is a `Query`. `findOne` is
  `FindOne`, which returns the first match in storage order.
  `UserStore` holds the collection. Its `Save` and `Insert` model
  `doc.save()` on a loaded or a new document.
- **Store invariant.** `Consistent` is the invariant every handler
  preserves:
  - ids are unique;
  - emails are unique;
  - a verified record is the first record with its username, so no two
    verified users share a username.
- **How the collection may change.** `Evolves` states what may happen
  between requests. No record disappears. Ids and emails never change.
  `isVerified` never goes back to false. A verified record keeps its
  username and password.
- **Route handlers.** Each one has its own module:
  - `SignUp.Post` (four-way registration policy `SignUp.Decide`, code
    issuing, one-hour expiry, mail failure after the write);
  - `VerifyCode.Post` (code/expiry verdict `VerifyCode.Judge`; an expired
    code wins over a match);
  - `SendMessage.Post` (acceptance gate, append);
  - `AcceptMessages.Post` / `AcceptMessages.Get`;
  - `CheckUsernameUnique.Get`.
  Handlers that write take the store and `modifies` it. Read-only
  handlers are functions of the collection.
- **The middleware** (`Middleware.Decide`) and the path predicate of its
  `config.matcher` (`Middleware.Matched`).
- **The suggestion endpoint** (`SuggestMessages.Post`). It picks one of
  four constant strings. `Strings.Split` splits each into its three
  questions.

Everything outside the collection is passed in as a parameter:
- the clock, as `now`, in milliseconds;
- `Math.random()`, as `draw`, a real in [0, 1);
- the bcrypt hash, as `hashedPassword`;
- the session, as an optional user id, or the token's presence;
- the mail outcome, as `emailSent` and `mailerMessage`;
- the zod verdict on the sign-up body, as `Validation`.

`walkthrough.dfy` follows one account from sign-up to a refused message
and proves each step from the handlers' contracts alone.

The model keeps these behaviours of the code as they are written:
- `send-message` builds a "Message not found" reply for an unknown
  recipient but never returns it. Control falls through to
  `!user?.isAcceptingMessage`, so an unknown recipient gets "User is not
  accepting message".
- A delivered message is answered with status 404.
- An expired code is reported as expired even when it matches.
- Re-registering over an unverified record rewrites only its username,
  password hash, code and expiry.
- The unauthenticated reply of `accept-messages` uses the key `status`
  where the others use `success`.
- The matcher's `favicon.ico` has an unescaped `.`, which matches any
  character. The matcher also excludes every path starting with `/api`,
  so the middleware's `next()` branch is never reached.

Three more behaviours of the code are kept exactly:
- A verification code is `Math.floor(100000 + r * 900000)` written in
  decimal. It is always six digits and never starts with '0'; codes below
  100000 are never issued.
- The incorrect-code reply reads "InCorrect Verification Code"
  (src/app/api/verify-code/route.ts:120). The route's own API comment
  documents it as "Incorrect Verification Code"
  (src/app/api/verify-code/route.ts:57).
- The username check applies the rule its API comment documents: 2 to 20
  characters from `[a-zA-Z0-9_]`
  (src/app/api/check-username-unique/route.ts:22-25).

## Model

| member | source | states |
|---|---|---|
| Users.Matches | src/app/api/sign-up/route.ts:108-111 | The filters the handlers pass to `findOne`/`findById`: `{username, isVerified: true}`, `{email}`, `{username}`, and `_id`. Each matches a record iff the named fields are equal. This is a definition with no contract. |
| Users.FindOne | src/app/api/sign-up/route.ts:108-111 | `findOne`: the index of the first record that matches the filter. It is None exactly when no record matches. |
| Users.FreshId | src/app/api/sign-up/route.ts:150-160 | A new record gets an id that no existing record carries. |
| Users.VerifiedUsernamesUnique | src/app/api/sign-up/route.ts:108-122 | Under the store invariant, two verified records with the same username are the same record. |
| Users.UserStore.Save | src/app/api/verify-code/route.ts:95-96 | `save()` of a loaded document replaces exactly that record. |
| Users.UserStore.Insert | src/app/api/sign-up/route.ts:150-160 | `save()` of a new document appends it after all others. |
| Strings.Split | src/app/api/suggest-messages/route.ts:23 | `split` on a non-empty separator gives at least one piece, and joining the pieces with it gives back the input. No piece contains the separator. Every piece but the last ends where the leftmost remaining occurrence of the separator starts, so `"a\|\|\|\|b"` splits as `["a", "", "b"]`. |
| Strings.SplitUnique | src/app/api/suggest-messages/route.ts:23 | Any pieces with those four properties are exactly `Split`'s result, so the contract pins down JavaScript's left-to-right `split`. |
| Strings.SplitJoin | src/app/api/suggest-messages/route.ts:47-52 | Splitting what `join` built gives back the parts, when no part uses a separator character. |
| Strings.Join | src/app/api/check-username-unique/route.ts:88 | `join(sep)` on a non-empty list starts with the first part. Its length is the parts' total length plus one separator between each pair of neighbours. |
| Strings.StartsWith | src/middleware.ts:44-54 | `startsWith(prefix)` holds iff the prefix is no longer than the string and agrees with it at every position. |
| Strings.NatToDecimal | src/app/api/sign-up/route.ts:126 | `toString()` of a number is all decimal digits, with no leading zero unless the number is 0. |
| Strings.DecimalRoundTrip | src/app/api/sign-up/route.ts:126 | Reading the decimal text of n back gives n. |
| Strings.DecimalLength | src/app/api/sign-up/route.ts:126 | A number between 10^(k-1) and 10^k - 1 is written with exactly k characters. |
| SignUp.CodeNumber | src/app/api/sign-up/route.ts:126 | `Math.floor(100000 + r * 900000)` for r in [0,1) lies in 100000..999999. |
| SignUp.IssueCode | src/app/api/sign-up/route.ts:126 | The stored and mailed code is six decimal digits, does not start with '0', and denotes the drawn number. |
| SignUp.Decide | src/app/api/sign-up/route.ts:108-161 | Username taken iff a verified record holds the username; this is checked first. Email taken iff not username-taken and the first record with the email is verified. Re-register names the first record with the email when it is unverified. Create iff no record has the email. |
| SignUp.Post | src/app/api/sign-up/route.ts:84-189 | Failed validation gives 400 with the field errors. Both rejections give their 400 message and leave the table unchanged. Re-registration changes only username, password hash, code and expiry (now + 3600000 ms) of that record. Otherwise one unverified, accepting record with no messages is appended. A mail failure gives 500 with the mailer's message and keeps the write; success gives 201. The invariant holds and the table only evolves. |
| VerifyCode.Judge | src/app/api/verify-code/route.ts:92-124 | Accepted iff the code matches and expiry > now. Expired iff expiry <= now, whatever the code. Incorrect iff not expired and the code differs. |
| VerifyCode.Post | src/app/api/verify-code/route.ts:74-124 | Unknown username gives 500 "User Not found". On acceptance only `isVerified` of the first record with the username becomes true, with 200. Expired or incorrect codes give their 400 message and no change. A record ends verified iff it was already, or it is the looked-up one and its code matched before expiry. |
| SendMessage.Post | src/app/api/send-message/route.ts:6-41 | An unknown or non-accepting recipient gives 404 "User is not accepting message" and no change. Otherwise exactly `{content, now}` is appended after the recipient's earlier messages, nothing else changes, and the reply is `success: true` with status 404. "Message not found" is never sent. |
| AcceptMessages.Get | src/app/api/accept-messages/route.ts:197-239 | No session gives 401. An unknown id gives 404 "User with that id not found". A known id gives 200 with a record's stored flag. Being a function, it changes nothing. |
| AcceptMessages.GetReportsStoredFlag | src/app/api/accept-messages/route.ts:214-234 | With unique ids, GET for a record's id answers 200 with exactly that record's flag. |
| AcceptMessages.Post | src/app/api/accept-messages/route.ts:134-182 | No session gives 401 `{status: false}`. An unknown id gives 401 "updated failed". Both leave the table unchanged. Otherwise only that record's flag is set, and the reply is 200 with the updated record. Setting the current value changes nothing (idempotent). A GET afterwards reads the new value. |
| AcceptMessages.BoolText | src/app/api/accept-messages/route.ts:176 | A boolean inside the template string reads "true" exactly when it is true and "false" exactly when it is false. |
| CheckUsernameUnique.UsernameRule | src/app/api/check-username-unique/route.ts:22-25 | The documented username rule: 2 to 20 characters, each a letter, a digit or '_'. This is a definition with no contract. |
| CheckUsernameUnique.Get | src/app/api/check-username-unique/route.ts:71-114 | A missing name, or one failing the 2-20 [a-zA-Z0-9_] rule, gives 400 with the schema messages joined by ",", or "Invalid query parameters" when there are none. A verified holder gives 400 "Username is already taken". Otherwise 200 "Username is unique", even when unverified records hold the name. |
| CheckUsernameUnique.TakenIffSignUpRefuses | src/app/api/check-username-unique/route.ts:95-107 | For a valid name, "taken" here iff sign-up decides "Username already exists". |
| Middleware.Decide | src/middleware.ts:36-64 | Redirects go only to /dashboard or /home. A token holder is never sent to /home, and a request without a token is never sent to /dashboard. |
| Middleware.SignedInLeavesAuthPages | src/middleware.ts:40-49 | With a token, "/" exactly, and paths starting with /sign-in, /sign-up or /verify, redirect to /dashboard. |
| Middleware.SignedOutLeavesProtectedPages | src/middleware.ts:50-57 | Without a token, paths starting with /dashboard or /verify redirect to /home. |
| Middleware.NoRedirectLoop | src/middleware.ts:40-58 | The redirect target, requested with the same token status, is not redirected again. |
| Middleware.RootMatchedExactly | src/middleware.ts:43 | "/x" with a token is not redirected: "/" is compared with equality. |
| Middleware.UnredirectedRequests | src/middleware.ts:60-63 | A request that is not redirected gets `next()` iff its path starts with "/api", and no response otherwise. |
| Middleware.Matched | src/middleware.ts:66-70 | The matcher `/((?!api\|_next\|favicon.ico).*)`: the path starts with '/', and what follows does not begin with "api", "_next", or "favicon", any one character, "ico". This is a definition with no contract. Its consequence is stated by MatchedNeverNext. |
| Middleware.MatchedNeverNext | src/middleware.ts:66-70 | No path the matcher admits reaches the `next()` branch. |
| SuggestMessages.RandomIndex | src/app/api/suggest-messages/route.ts:54-55 | `Math.floor(r * 4)` for r in [0,1) is a valid index into the four suggestions. |
| SuggestMessages.Post | src/app/api/suggest-messages/route.ts:44-59 | The reply is status 200 with Content-Type text/plain, and its body is one of the predefined strings. |
| SuggestMessages.ThreeQuestions | src/app/api/suggest-messages/route.ts:23 | Three '?'-terminated questions without '\|', joined by "\|\|", split back into exactly those questions. |
| SuggestMessages.PredefinedQuestions | src/app/api/suggest-messages/route.ts:48-51 | Each of the twelve predefined questions is non-empty, ends in '?' and holds no '\|'. |
| SuggestMessages.SuggestionShape | src/app/api/suggest-messages/route.ts:47-52 | Each predefined string splits on "\|\|" into exactly its three questions, each non-empty and ending in '?'. |
| SuggestMessages.PostGivesThreeQuestions | src/app/api/suggest-messages/route.ts:47-59 | Whatever the draw, the reply splits into three such questions. |

## Left out

- The database connection (`dbConnect`) and Mongoose are not modelled. The collection is an in-memory sequence, and storage order stands in for the order `findOne` returns.
- Exceptions from the store and the generic `catch` branches that turn them into 500 replies are not modelled.
- Concurrency is not modelled, including last-writer-wins between requests. Each handler runs alone and atomically.
- Reading the request body is not modelled: JSON parsing, `decodeURIComponent` (taken as the identity on the username), and Mongoose casting of `acceptMessages`, which is taken to be a boolean. Message content is any string; the source accepts any JSON value there.
- bcrypt is not modelled (its salt is random). The hash is an input.
- Sending the verification email is not modelled. Its outcome is an input.
- `getServerSession` and `getToken` are not modelled. The session is an optional user id, and the token is only present or absent.
- The zod schemas are not part of this model. The sign-up verdict is an input. The username check applies the documented 2-20 `[a-zA-Z0-9_]` rule, and the schema's error texts are an input.
- SignUp.CodeNumber: `Math.random()` is an exact real here, not an IEEE double. For some draws the double computation rounds `r * 900000` up to the next integer, so the source issues a code one higher than the model does. The range of codes, 100000..999999, is the same.
- SignUp.Post: the new-record path computes its expiry with `setHours(getHours() + 1)` in local time. The model uses now + 3600000 ms, which differs across a daylight-saving change.
- Message ids (Mongoose subdocument `_id`) are not modelled. A message is its content and creation time.
- `console.log` and the response fields beyond status, content type and body fields are not modelled.
- SuggestMessages.Post: the `APIError` and 500 branches are not modelled, because nothing in the `try` block can throw.
- Middleware.Matched: the regex `.` does not match line terminators, and the model ignores this. Pathnames never contain raw line terminators.
- src/app/api/delete-message/[messageId]/route.ts is not part of this model, and neither are the authentication options, the pages, the e-mail template or the API-docs configuration.
