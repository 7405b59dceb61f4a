# Note-taking application: authentication and note ownership, modelled in Dafny

The application has an Express server and a React client. The server keeps three in-memory collections:

- `otpStore` maps an e-mail to a pending one-time code and its expiry.
- `users` holds identity records.
- `notes` holds notes, each tagged with its owner's `userId`.

Signup is gated by a six-digit code. The server first issues the code (`send-otp`). It then checks the code and creates an `email` user (`verify-otp`). Login checks a bcrypt hash. A mocked Google login finds the user by e-mail or creates a `google` user. Every successful flow returns a JWT. Protected routes pass through `authenticateToken`, which reads `Authorization: <scheme> <token>`. It answers 401 when there is no token and 403 when verification fails. Otherwise the handler runs with the token's claims. The profile and note routes scope every lookup to those claims.

On the client, the signup screen validates the form and the code before calling the server. It clears a field's error as the user types and moves between two steps. The dashboard refuses blank notes, updates its list after each successful create, update or delete, and filters the list by a search term.

The model:

- `wrappers.dfy`: `Option`.
- `utf8.dfy`: the UTF-8 encoding of a string, which is what bcrypt reads of a password.
- `js_text.dfy`: the JavaScript string built-ins the code uses (`trim`, ASCII `toLowerCase`, `includes`, `split(' ')`, `String(n)`), with their defining properties.
- `js_array.dfy`: `filter`, `findIndex`, `find`, and the subsequence relation.
- `server.dfy`: the server. The pure parts are OTP generation and checking, token signing and verification, and the bearer guard. Class `ServerState` holds the three collections as `seq`/`map` fields, with one method per route. Its invariant `Valid()` says that e-mails are unique, user ids are unique and note ids are unique.
- `signup.dfy`: the signup validators, the change handler and the two-step screen.
- `dashboard.dfy`: the guards, the list updates and the search filter.
- `scenarios.dfy`: two end-to-end scenarios:
  - A signup for any well-formed input, followed by a login, and the code then replayed.
  - A user who tries to delete another user's note.

Inputs the code takes from its environment are parameters of the model:

- `now`: `Date.now()` in milliseconds.
- `draw`: `floor(Math.random() * 900000)`.
- `newId`: the next `uuidv4()`, required to be fresh.
- `decode`: the parsing of a JWT string into a token.
- `reply`: the outcome of a `fetch`.
- `confirmed`: the answer to `window.confirm`.

An absent or empty request field is the empty string (both are falsy in JavaScript).

Behaviour of the code worth knowing:

- Codes are the decimal strings of 100000..999999, so they never start with `0`.
- Provider kinds are the strings `email` and `google`.
- An expired token and a badly signed one both get the same 403.
- `send-otp` checks only for an `@`. The name, password and confirmation rules live in the client (`Signup.FormErrors`). `verify-otp` re-checks only that fields are present and that the password has at least 6 characters.
- Logging in with a password to an account created by Google login answers 500 `Login failed`, because `bcrypt.compare` rejects the missing hash. The "Invalid credentials" 400 is not used for this case.
- The scheme word of the `Authorization` header is never checked: any `<word> <token>` is accepted (`Server.IssuedTokenAuthorized`).
- The signing secret is the hard-coded `your-secret-key`, and `jwt.verify` does not check the expiry of a token that carries none. A token minted with that secret and without `exp` passes the guard forever, with any claims (`Server.UnexpiringTokenAuthorized`).
- bcrypt reads only the first 72 bytes of a password's UTF-8 encoding. A password that agrees with the registered one on those bytes logs in (`Server.LongPasswordTruncated`).

## Model

| member | source | states |
|---|---|---|
| `JsText.Trim` | client/src/components/Signup.jsx:39-41 | `trim()` returns the slice between the first and last non-space characters; everything cut off is white space. |
| `JsText.TrimEmptyIff` | client/src/components/Dashboard.jsx:43 | A string trims to "" exactly when all its characters are white space. |
| `JsText.TrimAtLeastTwoIff` | client/src/components/Signup.jsx:41 | `trim().length >= 2` exactly when the string holds two non-space characters (`HasTwoNonSpace`, the name rule). |
| `JsText.LowerChar` | client/src/components/Dashboard.jsx:134-135 | A capital ASCII letter becomes the letter 32 code points later (its lower case); every other character is unchanged. |
| `JsText.ToLower` | client/src/components/Dashboard.jsx:134-135 | `toLowerCase()` keeps the length and lowers each character as `LowerChar` does. |
| `JsText.Includes` | client/src/components/Dashboard.jsx:134-135 | `includes(part)` holds exactly when `part` occurs at some position. |
| `JsText.Split` | server/index.js:31 | `split(' ')` gives at least one piece, and no piece contains a space. |
| `JsText.JoinSplit` | server/index.js:31 | Joining the pieces of `split` with the separator gives back the header. |
| `JsText.SplitJoin` | server/index.js:31 | Splitting a join of space-free pieces gives back those pieces. |
| `JsText.NatToString` | server/index.js:21 | `toString()` of a non-negative integer is a non-empty string of digits. |
| `JsText.DecimalRoundTrip` | server/index.js:21 | Reading the digits of `toString()` back gives the number. |
| `JsText.DecimalLength` | server/index.js:21 | A number in [10^k, 10^(k+1)) is written with k+1 digits. |
| `JsText.NoLeadingZero` | server/index.js:21 | A positive number's decimal string does not start with `0`. |
| `Utf8.EncodeChar` | server/index.js:95 | A character becomes its shortest form: one byte below U+0080, two below U+0800, three below U+10000, four above. The lead byte gives the count, then continuation bytes follow, and they decode back to the character. |
| `Utf8.Encode` | server/index.js:95 | A string's encoding has between one and four bytes per character, and exactly one per character for ASCII text. |
| `Utf8.EncodeConcat` | server/index.js:95 | Encoding a concatenation concatenates the encodings. |
| `Utf8.LeadDeterminesLength` | server/index.js:95 | Two encodings with the same lead byte have the same length. |
| `Utf8.EncodeInjective` | server/index.js:95 | Different strings have different encodings. |
| `JsArray.Filter` | server/index.js:233 | Every element `filter` returns satisfies the predicate, and there are no more than in the input. |
| `JsArray.FilterMembers` | server/index.js:233 | `filter` keeps every accepted element as often as in the input, and nothing else. |
| `JsArray.FilterIsSubsequence` | server/index.js:233 | `filter` keeps the input's order. |
| `JsArray.FilterConcat` | server/index.js:255 | Filtering a concatenation is concatenating the filtered parts. |
| `JsArray.FilterKeepsAll` | client/src/components/Dashboard.jsx:133-136 | A filter that accepts every element returns the list unchanged. |
| `JsArray.FindIndex` | server/index.js:265 | `findIndex` returns the first index satisfying the predicate, or -1 exactly when none does. |
| `JsArray.Find` | server/index.js:89 | `find` returns the first satisfying element, or nothing exactly when none satisfies. |
| `Server.GenerateOtp` | server/index.js:20-22 | The code has six digits, no leading zero, and denotes 100000 + draw, which lies in 100000..999999. |
| `Server.OtpAccepted` | server/index.js:83-86 | Only the code stored for the e-mail passes, and it passes exactly until its expiry instant, inclusive. |
| `Server.HashPassword` | server/index.js:95 | The hash keeps the first 72 bytes of the password's UTF-8 encoding, and all of it when the encoding is shorter. |
| `Server.Compare` | server/index.js:146 | `bcrypt.compare` holds exactly for the hash that `bcrypt.hash` makes of the offered password. |
| `Server.ShortPasswordExact` | server/index.js:146 | A password of at most 72 bytes matches only its own hash. |
| `Server.LongPasswordTruncated` | server/index.js:146 | Passwords that agree on their first 72 bytes match each other's hash, whatever follows. |
| `Server.PublicView` | server/index.js:119-124 | The response's user object has the record's id, e-mail, name and provider. |
| `Server.PublicViewHidesCredential` | server/index.js:119-124 | The response's user object does not depend on the password hash or the Google id. |
| `Server.Sign` | server/index.js:110-114 | The token carries id, e-mail and name, the issue second, an expiry 24 hours later and the server's key, and it verifies at once. |
| `Server.Verify` | server/index.js:37-40 | A token verifies, with exactly its own claims, when it carries the server's key and either has no expiry or the current second is before it. |
| `Server.UnexpiringTokenAuthorized` | server/index.js:29-44 | A token made with the hard-coded secret and without an expiry passes the guard with its claims at every time. |
| `Server.SignedTokenValidity` | server/index.js:110-114 | A token the server signed verifies, with its claims, exactly while the current second is before iat + 24h. |
| `Server.BearerToken` | server/index.js:30-31 | The token is the second space-separated piece of the header, and is absent when there is no header or no second piece. |
| `Server.AuthenticateToken` | server/index.js:29-44 | 401 exactly when the second piece is missing or empty. 403 exactly when it does not decode or does not verify. Otherwise the handler gets the verified claims. |
| `Server.GuardFailure` | server/index.js:33-40 | A missing token is answered 401 and a rejected token 403. |
| `Server.NoSecondPieceUnauthorized` | server/index.js:31-35 | No header, or a header with no space, gets 401. |
| `Server.EmptySecondPieceUnauthorized` | server/index.js:31-35 | A header with two spaces after the first word has an empty token and gets 401. |
| `Server.BareSchemeUnauthorized` | server/index.js:31-35 | `"Bearer"` and `"Bearer  x"` both get 401. |
| `Server.IssuedTokenAuthorized` | server/index.js:29-44 | A server-signed, unexpired token sent as `<scheme> <token>` is let through with the claims it was signed with. |
| `Server.ExpiredOrForgedTokenForbidden` | server/index.js:37-40 | A token whose expiry has been reached, or one signed with another key, gets 403. |
| `Server.NotesOf` | server/index.js:233 | The GET result holds only notes whose `userId` is the caller. |
| `Server.NotesOfExactly` | server/index.js:233 | GET returns exactly the caller's notes, each as often as stored, in stored order. |
| `Server.AppendKeepsOthers` | server/index.js:255 | Adding one user's note leaves every other user's note list unchanged. |
| `Server.SpliceKeepsOthers` | server/index.js:271 | Splicing out one user's note leaves every other user's list unchanged. |
| `Server.ReplaceKeepsOthers` | server/index.js:293-298 | Replacing one user's note by another of theirs leaves every other user's list unchanged. |
| `Server.ConsumedOtpNeverAccepted` | server/index.js:83-86 | Once the entry is deleted, no code passes the OTP check for that e-mail. |
| `Server.ReissueReplacesCode` | server/index.js:55-59 | After a new `send-otp`, only the new code passes, and only until its expiry (inclusive). Other e-mails' checks are unchanged. |
| `Server.ServerState.constructor` | server/index.js:16-18 | The server starts with empty collections, which satisfy the invariant. |
| `Server.ServerState.SendOtp` | server/index.js:47-68 | An empty e-mail or one without `@` gets 400 and changes nothing. Otherwise only this e-mail's entry is overwritten, with the generated code and now + 300000. The code is echoed with 200. |
| `Server.ServerState.VerifyOtp` | server/index.js:71-129 | Checks run in order: missing field, short password, failed OTP check, existing e-mail. Each failure gets its 400 and changes nothing. On success exactly one `email` user is appended, the entry is deleted (so the code cannot pass again), and the response carries only the public user view. E-mails stay unique. |
| `Server.ServerState.Login` | server/index.js:131-170 | Changes nothing. An unknown e-mail and a wrong password get the same 400 `Invalid credentials`. A Google-created record gets 500. A password that `Compare` accepts (agreeing on the first 72 bytes) gets 200 with a token and only id, email, name and provider; any other gets 400. |
| `Server.ServerState.GoogleLogin` | server/index.js:172-213 | Missing data gets 400. An existing record with that e-mail is reused, whatever its provider. Otherwise exactly one `google` user is appended. E-mails stay unique. |
| `Server.ServerState.Profile` | server/index.js:215-229 | Guard failures get 401/403. Otherwise an unknown id gets 404 and a known id gets 200 with that user's public view. |
| `Server.ServerState.ListNotes` | server/index.js:232-235 | Guard failures get 401/403. Otherwise the response is exactly the caller's notes in stored order. |
| `Server.ServerState.CreateNote` | server/index.js:238-260 | Notes are unchanged on a guard failure or an empty title or content, with the matching response. Otherwise one note owned by the caller is appended and returned with 201. No other user's list changes. |
| `Server.ServerState.DeleteNote` | server/index.js:262-276 | A note matching both the id and the caller is required, else 404 and no change. Exactly the first such note is spliced out. The caller then has no note with that id, and no other user's list changes. |
| `Server.ServerState.UpdateNote` | server/index.js:278-304 | An empty title or content gets 400. A note matching the id and the caller is required, else 404. Only that index changes: title, content and updatedAt. Length, every id, userId and createdAt are kept, and no other user's list changes. |
| `Signup.FormData.Set` | client/src/components/Signup.jsx:23-26 | The spread update sets the named field and leaves the others unchanged. |
| `Signup.EmailPattern` | client/src/components/Signup.jsx:47 | A matching e-mail contains both `@` and `.`. |
| `Signup.MatchShifts` | client/src/components/Signup.jsx:47 | A match found in a string is found at the same offsets in any text that contains it. |
| `Signup.EmailPatternUnanchored` | client/src/components/Signup.jsx:47 | The e-mail pattern is not anchored: a matching string still matches with any text around it. |
| `Signup.EmailPatternExample` | client/src/components/Signup.jsx:47 | `a@x.com` matches and `a@x` does not. |
| `Signup.NameMessage` | client/src/components/Signup.jsx:39-43 | No name message exactly when the name has two non-space characters. `Name is required` exactly when it is all white space. Otherwise the length message. |
| `Signup.EmailMessage` | client/src/components/Signup.jsx:45-49 | No e-mail message exactly when the pattern matches. `Email is required` exactly when the e-mail is empty. |
| `Signup.PasswordMessage` | client/src/components/Signup.jsx:51-55 | No password message exactly when the length is at least 6. `Password is required` exactly when it is empty. |
| `Signup.ConfirmMessage` | client/src/components/Signup.jsx:57-61 | An empty confirmation gets `Please confirm your password`. Otherwise a mismatch gets `Passwords do not match`. No message exactly when both are equal and non-empty. |
| `Signup.Collect` | client/src/components/Signup.jsx:37-61 | The successive assignments set a key exactly for each field with a message, with that message. |
| `Signup.FormErrors` | client/src/components/Signup.jsx:36-62 | The error map has one key per failing field among name, e-mail, password and confirmation, each with its single message. |
| `Signup.ValidateForm` | client/src/components/Signup.jsx:36-65 | `validateForm` passes exactly when: the name has two non-space characters, the pattern matches, the password has at least 6 characters, and the confirmation equals it. |
| `Signup.OtpErrors` | client/src/components/Signup.jsx:67-75 | The code gets a key exactly when its length is not 6: `OTP is required` when empty, the length message otherwise. |
| `Signup.ValidateOtp` | client/src/components/Signup.jsx:67-78 | `validateOTP` passes exactly for codes of length 6, digits or not. |
| `Signup.HandleChange` | client/src/components/Signup.jsx:21-34 | Only the named field changes. Only that field's error is cleared, to "". Other fields and errors and the set of error keys are unchanged. |
| `Signup.SubmitDetails` | client/src/components/Signup.jsx:80-110 | An invalid form shows its errors and sends nothing. The step moves to 2 exactly when the form is valid and the reply is ok. A failure shows the server's error or `Failed`, or the network message. The form is kept. |
| `Signup.SubmitCode` | client/src/components/Signup.jsx:112-144 | `onLogin` is called exactly when the code has length 6 and the reply is ok. Success clears the errors. The step and the form are kept, and failures show their message. |
| `Signup.Back` | client/src/components/Signup.jsx:223 | "Back" sets step 1 and keeps the form and errors. |
| `Signup.ForwardAndBack` | client/src/components/Signup.jsx:99-104 | Submitting, typing a code and going back returns to step 1 with the form as typed. |
| `Signup.CodeStepNeedsValidForm` | client/src/components/Signup.jsx:80-104 | From step 1, step 2 is reached exactly when the form is valid and the reply is ok. |
| `Dashboard.Blank` | client/src/components/Dashboard.jsx:43 | `!s.trim()` holds exactly when every character is white space. |
| `Dashboard.Prepend` | client/src/components/Dashboard.jsx:61 | After a create, the list is the new note followed by the old list, one longer. |
| `Dashboard.ReplaceById` | client/src/components/Dashboard.jsx:95-97 | The length is unchanged. Entries with the edited id hold the saved note; all others are unchanged. |
| `Dashboard.RemoveById` | client/src/components/Dashboard.jsx:123 | No note with the id remains. Every other note remains, as often as before, in the same relative order. |
| `Dashboard.ReplaceThenRemove` | client/src/components/Dashboard.jsx:95-97 | An update touches only entries with the edited id: removing that id after the update equals removing it before. |
| `Dashboard.RemoveIdempotent` | client/src/components/Dashboard.jsx:123 | Removing an id twice is removing it once. |
| `Dashboard.MatchesSearch` | client/src/components/Dashboard.jsx:134-135 | The empty term matches every note. A term longer than both title and content matches none. |
| `Dashboard.FilteredNotes` | client/src/components/Dashboard.jsx:133-136 | The result is a subsequence of the notes. A note is kept, as often as it occurs, exactly when its lowercased title or content contains the lowercased term. |
| `Dashboard.EmptySearchKeepsAll` | client/src/components/Dashboard.jsx:133-136 | An empty search term keeps every note. |
| `Dashboard.SearchIgnoresCase` | client/src/components/Dashboard.jsx:134-135 | Searching for a term and for its lowercase form keep the same notes. |
| `Dashboard.HandleCreateNote` | client/src/components/Dashboard.jsx:42-71 | A request is sent exactly when title and content are both non-blank; otherwise the error is set. A saved note is put in front of the list, the draft is reset, the modal closes and the errors clear; nothing else changes. Failures set the error and keep the list. |
| `Dashboard.HandleUpdateNote` | client/src/components/Dashboard.jsx:73-106 | A request is sent exactly when the edited title and content are non-blank. A saved note replaces every entry with the edited id, closes the editor and clears the errors; nothing else changes. Failures keep the list. |
| `Dashboard.HandleDeleteNote` | client/src/components/Dashboard.jsx:108-131 | A request is sent exactly when confirmed. Only a successful delete changes the list, removing the id. Nothing else on the board changes. |
| `Scenarios.SignupLoginReplay` | server/index.js:47-170 | For any e-mail with an `@`, non-empty name and password of at least 6 characters, sending a code and verifying it registers the user. The returned token passes the guard with that user's claims. A login with the same password gives the same session. Verifying the same code again gets `Invalid or expired OTP`. |
| `Scenarios.CrossUserDeleteRefused` | server/index.js:262-276 | User B deleting user A's note by its exact id gets 404, and A still lists the note. |

## Left out

- Express wiring, the JSON body parser, CORS, dotenv and `app.listen`. Each route is a method that returns a status and a body.
- JSON values other than strings in request bodies, and the generic 500 `catch` branches they would reach. The one `catch` the model keeps is login against a Google-created user.
- JWT cryptography. A token is modelled as its claims, its optional expiry and the key it was signed with. The parsing of the compact string is the parameter `decode`. A token verifies when it was signed with the server's fixed secret and either carries no expiry or the current second is before it. The other registered claims `jwt.verify` checks, such as `nbf`, are not modelled, and neither are algorithm choice and clock tolerance.
- bcrypt's salt, cost and Blowfish key schedule. A hash is modelled as the key bytes bcrypt reads: the password's UTF-8 encoding cut to 72 bytes. `compare` holds exactly when those key bytes agree. How bcrypt pads a key shorter than 72 bytes is not modelled.
- `Math.random` as a floating-point number. Only the integer draw in 0..899999 is kept.
- `uuidv4`, `Date.now()` and `new Date().toISOString()`. They are parameters, and timestamps are kept as milliseconds rather than ISO strings.
- Clock reads within one request. Each handler takes one `now`, where the code reads the clock several times. verify-otp reads it for the expiry check (index.js:84), for `createdAt` (index.js:104), and inside `jwt.sign` after the `await` on `bcrypt.hash`. POST /api/notes calls `new Date()` twice (index.js:251-252), so `createdAt` and `updatedAt` can differ by a millisecond.
- The client's note type keeps only what the list logic uses, so `Dashboard.Note` has no `userId`. Its timestamps stay the ISO strings the server sends; the server model keeps them as milliseconds.
- Concurrency at the `await` points. Each handler is atomic.
- `sendOTP`, which only logs.
- React rendering, the loading and show-password flags, and `localStorage`.
- `fetchNotes`, which sets the list to the server's answer.
- The display of the echoed code (`setOtp`) and the mocked Google signup payload.
- The `alert` after a failed delete. The list is unchanged in that case, as modelled.
- `formatDate` (locale formatting) and `client/src/components/Welcome.jsx` (markup only).
- `toLowerCase` and `trim` beyond what is modelled. Lower-casing covers ASCII letters only; `trim` covers the ECMAScript white-space set.
- String lengths, which count Unicode scalar values, where JavaScript counts UTF-16 code units.
