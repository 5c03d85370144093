# One-time code ledger and PDF delivery, in Dafny

This project models the core of a small Node.js service, `server.js`. The service emails a
six-digit verification code to an address. When the code is entered correctly, it emails the
PDF stored for that address. The modelled core is the in-memory ledger of pending codes
(`codes`, a `Map` from lowercased email to `{code, expiresAt}`) and the two routes that use it:

- `POST /api/send-code` validates the body and draws a code. It stores the code with a
  ten-minute expiry, overwriting any earlier code for the address. Then it mails the code.
  A validation failure maps to 400, a mail failure to 502. A stored code is not rolled back
  when its mail fails.
- `POST /api/verify-and-send` validates the body, including the `^\d{6}$` code format. It
  accepts the code only if an entry exists, the code is identical and the entry has not expired.
  It deletes the entry before anything else happens, so a code is single-use. It then looks up
  the user and their PDF, applies the default filename and mime type, and mails the PDF.

Layout:

- `text.dfy`: module `Optional` (an `Option` type) and module `Text`. `Text` holds `lc` as ASCII
  lowercasing, `Number.prototype.toString` of a non-negative integer below 10^21, which
  covers the six-digit codes (`Decimal`), and the `^\d{6}$` pattern.
- `ledger.dfy`: module `CodeLedger`. It holds the ten-minute lifetime and the entry type. It
  holds the code computed from the random draw, and the acceptance test. It holds
  `codes.set` (`Issue`) and `codes.delete` (`Consume`), with the slot-lifecycle lemmas.
- `server.dfy`: module `Server`. It holds the request, record, mail and response datatypes, and
  each route once as a pure function (`HandleSendCode`, `HandleVerifyAndSend`). Class `App` holds
  the mutable `codes` field. Its methods `SendCode` and `VerifyAndSend` update the field in place
  in the source's order, and are proved equal to the pure functions. Lemmas about the routes,
  alone and in sequence, are stated over the pure functions.

Collaborators are parameters. The clock is an integer `now` in milliseconds (`Date.now()`).
`Math.random()` becomes an integer draw in `[0, 900000)`. zod's address check is an
uninterpreted `isEmail: string -> bool`. The user collection is a `Store`: a map from lowercased
email to the selected fields, plus whether the query succeeds. `transporter.sendMail` is a
`Delivery` (delivered, or failed with an error message). The mail handed to the transport is
returned, so contracts can state its recipient, text and attachment.

In these details the model follows what the code does:

- On verify-and-send, a malformed body (a bad address, or a code not matching `^\d{6}$`) is
  thrown by zod. The catch-all turns it into 500 "Could not send email.", not a 4xx answer.
- At exactly `expiresAt` a code is still accepted (`Date.now() > entry.expiresAt` rejects).
  Only later instants are rejected.
- A failing user query also lands in the catch-all (500). This happens after the code has
  been consumed.
- `pdfFilename || 'document.pdf'`, `pdfMime || 'application/pdf'` and
  `e.message || 'Failed to send code'` also fall back on an empty string, not only on a missing
  value.

## Model

| member | source | states |
|---|---|---|
| `Text.Lc` | server.js:44 | a missing value maps to ""; a string keeps its length and each character is lowercased in place, so no upper-case ASCII letter remains |
| `Text.LowerAscii` | server.js:44 | lowercasing keeps the length and lowercases each character in place |
| `Text.LowerAsciiIdempotent` | server.js:44 | lowercasing a lowercased string changes nothing |
| `Text.LcIdempotent` | server.js:50 | normalizing a key a second time gives the same key |
| `Text.SameKeyIffEqualIgnoringCase` | server.js:75 | two addresses get the same ledger key exactly when they differ only in the case of letters (both directions) |
| `Text.Decimal` | server.js:51 | integer-to-string yields only digits, at least one, with a leading '0' exactly for zero |
| `Text.DecimalRoundTrip` | server.js:51 | reading the printed digits back gives the number |
| `Text.DecimalInjective` | server.js:51 | two numbers print the same exactly when they are equal |
| `Text.DecimalLength` | server.js:51 | a number in [10^k, 10^(k+1)) prints as k+1 characters |
| `Text.MatchesCodePattern` | server.js:39 | definition: `^\d{6}$` without flags holds of exactly six ASCII digits |
| `Text.SixDigitNumbers` | server.js:39 | every number in 100000..999999 prints as a string matching `^\d{6}$` with no leading zero |
| `CodeLedger.CodeFromDraw` | server.js:51 | the issued code matches `^\d{6}$`, has no leading zero, and denotes 100000 + draw |
| `CodeLedger.CodeFromDrawInjective` | server.js:51 | two draws give the same code exactly when they are equal |
| `CodeLedger.Accepts` | server.js:76-78 | definition: an entry exists for the key, its code is identical to the supplied one, and now <= expiresAt |
| `CodeLedger.Issue` | server.js:50-53 | after issuing, the key holds exactly the new code with expiry now + 600000; earlier entries for it are replaced; other keys are unchanged |
| `CodeLedger.Consume` | server.js:81 | deleting removes exactly the key, keeps every other entry, and is a no-op on an absent key |
| `CodeLedger.AcceptsAfterIssue` | server.js:52-78 | a freshly issued slot accepts exactly its own code, up to and including now + 600000 |
| `CodeLedger.IssueLeavesOtherKeys` | server.js:53 | issuing for one key does not change what any other key accepts |
| `CodeLedger.OverwriteInvalidates` | server.js:53-78 | after two issues for a key, the first code is accepted exactly when it equals the second and the second has not expired |
| `CodeLedger.OverwriteInvalidatesDraws` | server.js:51-78 | with drawn codes, the first is accepted after a re-issue exactly when the two draws were equal |
| `CodeLedger.ConsumedRejects` | server.js:76-81 | a consumed slot accepts no code at any time |
| `CodeLedger.ExpiredStaysExpired` | server.js:78 | when the stored code matches, a rejection at one instant implies a rejection at every later instant |
| `CodeLedger.AtMostOneLiveCode` | server.js:43 | at any instant a slot accepts at most one code |
| `Server.CodeMailCarriesCode` | server.js:56-61 | the code mail goes to the address as typed, and its text carries the code right after "Your code is " |
| `Server.ParseEmailBody` | server.js:36-49 | definition: the body parses exactly when it is an object whose `email` is a string passing the address check, and the result is that string |
| `Server.ParseVerifyBody` | server.js:37-74 | definition: the body parses exactly when `email` is a string passing the address check and `code` is a string matching `^\d{6}$`, and the result is those two strings |
| `Server.CodeMail` | server.js:56-61 | the code mail goes to the address as typed and has no attachment |
| `Server.FailureText` | server.js:68 | a send-code failure message is the error's own message when non-empty, otherwise 'Failed to send code' |
| `Server.HandleSendCode` | server.js:47-70 | one send-code call: it never removes a ledger entry and mails exactly when the input is valid; a delivered mail gives 200 "We sent you a 6-digit code.", a failed one gives 502 with `FailureText` of the error message; the answer is ok exactly when the status is 200 |
| `Server.AttachmentName` | server.js:103 | the attachment name is the stored name when non-empty, otherwise 'document.pdf' |
| `Server.AttachmentType` | server.js:105 | the content type is the stored type when non-empty, otherwise 'application/pdf' |
| `Server.PdfMail` | server.js:97-107 | the PDF mail goes to the typed address with one attachment holding the stored bytes under the defaulted name and type |
| `Server.Status` | server.js:79-112 | 200 exactly for success; 400 exactly for an invalid or expired code; 404 exactly for a missing user or a missing PDF; 500 exactly for the failures the catch-all handles |
| `Server.OutcomeText` | server.js:79-112 | each outcome has its own message: "PDF sent! Check your inbox.", "Invalid or expired code.", "No user for this email.", "No PDF stored for this user.", and the shared "Could not send email." exactly for the failures the catch-all handles |
| `Server.ResponseFor` | server.js:79-112 | a redemption answer is ok exactly when its status is 200, and it always carries a non-empty message |
| `Server.HandleVerifyAndSend` | server.js:72-114 | one verify-and-send call: it never adds or changes a ledger entry, only removes, and mails only when the outcome is success or a mail failure |
| `Server.App.constructor` | server.js:43 | the ledger starts empty |
| `Server.App.SendCode` | server.js:47-70 | updating `codes` in place gives the response, ledger and mail of `HandleSendCode` on the old ledger |
| `Server.App.VerifyAndSend` | server.js:72-114 | checking, deleting and looking up in place gives the response, ledger and mail of `HandleVerifyAndSend` on the old ledger |
| `Server.SendCodeStatus` | server.js:63-68 | send-code answers 400 with the validation report exactly for invalid input; 502 with the error message, or 'Failed to send code' when it is empty, exactly for a failed mail; and 200 "We sent you a 6-digit code." (the only ok answer) otherwise |
| `Server.SendCodeInvalidInput` | server.js:49-67 | invalid send-code input leaves the ledger unchanged and sends nothing |
| `Server.SendCodeIssues` | server.js:49-61 | valid input stores the drawn code under the lowercased key for ten minutes whatever the mail does; other keys are unchanged; the mail to the typed address carries the code |
| `Server.VerifyBadInput` | server.js:74-112 | verify-and-send rejects exactly the malformed bodies, before reading the ledger, with the same 500 answer as a mail failure |
| `Server.VerifyRejectsMalformedCode` | server.js:39 | a code not matching `^\d{6}$` is refused as malformed input |
| `Server.VerifyCheck` | server.js:75-80 | well-formed input passes the check exactly when an entry exists, the code is identical and now <= expiresAt; otherwise the ledger is unchanged and the answer is the single 400 "Invalid or expired code." |
| `Server.VerifySingleUse` | server.js:78-107 | once the check passes the entry is deleted, whatever the lookup and mail do, and a second redemption of the same body at any time fails the check |
| `Server.VerifyLookup` | server.js:84-109 | after the check: a failing query gives 500 "Could not send email."; a missing user gives 404 "No user for this email."; a missing PDF gives 404 "No PDF stored for this user."; each holds exactly in its case. Otherwise the PDF mail is sent, and the answer is 200 "PDF sent! Check your inbox." exactly when it is delivered, else 500 "Could not send email." |
| `Server.IssueThenRedeem` | server.js:47-114 | requesting a code and redeeming it within ten minutes, with the address in any case, passes the check even if the first mail failed; it empties the slot, keeps the others, sends the PDF when present and delivered, and refuses the same code at any later instant on the ledger the redemption leaves |
| `Server.ExpiredCodeRejected` | server.js:52-80 | redeeming later than ten minutes after issue fails the check and leaves the ledger and mailbox alone |
| `Server.ReissueInvalidatesFirst` | server.js:50-80 | after a second code request, the first code passes the check only when both draws were equal and the second code is live |

## Left out

- HTTP wiring is not modelled: the Express app, JSON body parsing, CORS, static files, the
  port and `app.listen` (server.js:10-17, 116-117). The request body is modelled as already
  parsed into a `Body`.
- The rate limiter (server.js:19-21) is not modelled. It is an external middleware.
- The MongoDB connection and the mechanics of `User.findOne(...).select().lean()` are not
  modelled. The store is a map from lowercased email to the selected fields, plus a flag for a
  query that throws.
- The difference between a `Buffer` and a BSON binary `pdfBuffer` (server.js:89-95) is not
  modelled. A PDF is present (its bytes) or absent.
- The nodemailer transport, the `from` address (`MAIL_FROM`), the unused `SMTP_TIMEOUT_MS`, and
  delivery itself are not modelled. `sendMail` is a delivered or failed outcome given as a
  parameter.
- zod's address syntax is not modelled. It is an uninterpreted predicate parameter. The text of
  a zod error is the opaque `ValidationReport`. zod's other object rules (unknown keys are
  stripped) do not affect any outcome.
- `Math.random()` and its floating-point product are not modelled. They are replaced by the
  integer draw they floor to.
- Text.Lc: lowercases ASCII letters only. JavaScript's `toLowerCase` also lowercases non-ASCII
  letters, so two addresses that differ only in non-ASCII case are separate slots here. A
  truthy non-string argument, which would throw in JavaScript, is not modelled, because both
  routes only pass strings that zod has validated.
- Console logging is not modelled.
- Interleaving at `await` points is not modelled. Each route is one sequential call, as on
  Node's single-threaded event loop, and the ledger is only touched before the first `await`.
- No background eviction of stale entries is modelled, because the source has none. Expired
  entries stay in `codes` until overwritten, and the acceptance test treats them as absent.
- seed.js (a command-line provisioning script) and models/User.js (a mongoose schema and
  lowercase save hook) are not part of this model. The schema's default filename and mime type
  match the fallbacks modelled at server.js:103 and 105.
