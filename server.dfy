/**
  The two routes of server.js and the shared `codes` map they update.

  `POST /api/send-code` validates the body, stores a fresh six-digit code for
  the lowercased address, and mails the code. `POST /api/verify-and-send`
  validates the body, checks the code against the ledger, deletes the entry,
  looks the user up, and mails the stored PDF as an attachment.

  The record store, the mail transport, the clock, the random draw and zod's
  email check are parameters. Each handler exists twice. A pure function
  (`HandleSendCode`, `HandleVerifyAndSend`) gives the meaning of one call.
  A method of `App` updates `codes` in place and is proved to agree with it.
*/
module Server {
  import opened Optional
  import opened Text
  import opened CodeLedger

  // ---- requests ----

  /** One property of the JSON request body. */
  datatype Field = Missing | Str(s: string) | NotAString

  /** The JSON request body as the handler receives it. */
  datatype Body = NotAnObject | Object(email: Field, code: Field)

  /** zod's `z.string().email()` syntax check, left uninterpreted. */
  type EmailCheck = string -> bool

  /** `emailSchema.parse(req.body)`: the address, or `None` where zod throws. */
  function ParseEmailBody(body: Body, isEmail: EmailCheck): (r: Option<string>)
    ensures r.Some? ==> body.Object? && body.email == Str(r.value) && isEmail(r.value)
    ensures r.None? ==> !body.Object? || !body.email.Str? || !isEmail(body.email.s)
  {
    if body.Object? && body.email.Str? && isEmail(body.email.s) then Some(body.email.s) else None
  }

  datatype Credentials = Credentials(email: string, code: string)

  /** `verifySchema.parse(req.body)`: both fields must be strings, the code must match `^\d{6}$`. */
  function ParseVerifyBody(body: Body, isEmail: EmailCheck): (r: Option<Credentials>)
    ensures r.Some? ==> body == Object(Str(r.value.email), Str(r.value.code))
                        && isEmail(r.value.email) && MatchesCodePattern(r.value.code)
    ensures r.None? ==> !body.Object? || !body.email.Str? || !isEmail(body.email.s)
                        || !body.code.Str? || !MatchesCodePattern(body.code.s)
  {
    if body.Object? && body.email.Str? && isEmail(body.email.s)
       && body.code.Str? && MatchesCodePattern(body.code.s)
    then Some(Credentials(body.email.s, body.code.s))
    else None
  }

  // ---- collaborators ----

  /** The fields the redemption selects from a user document; `None` is an unset field. */
  datatype UserRecord = UserRecord(pdf: Option<seq<bv8>>, pdfFilename: Option<string>, pdfMime: Option<string>)

  /** The user collection keyed by lowercased email, and whether the query succeeds at all. */
  datatype Store = Store(reachable: bool, users: map<string, UserRecord>)

  datatype Attachment = Attachment(filename: string, content: seq<bv8>, contentType: string)

  datatype Mail = Mail(to: string, subject: string, text: string, attachments: seq<Attachment>)

  /** What `transporter.sendMail` does with a message: delivers it or rejects with an error message. */
  datatype Delivery = Delivered | Failed(message: string)

  // ---- responses ----

  /** A response message: a fixed text, or zod's serialised list of issues. */
  datatype Message = Plain(text: string) | ValidationReport

  datatype Response = Response(status: int, ok: bool, message: Message)

  // ---- send-code ----

  const CodeIntro := "Your code is "

  function CodeMail(email: string, code: string): (m: Mail)
    ensures m.to == email && m.attachments == []
  {
    Mail(email, "Your verification code", CodeIntro + code + ". It expires in 10 minutes.", [])
  }

  /** The mail sent by send-code goes to the address as typed and carries the code right after the intro. */
  lemma CodeMailCarriesCode(email: string, code: string)
    requires MatchesCodePattern(code)
    ensures CodeMail(email, code).to == email
    ensures CodeMail(email, code).text[|CodeIntro|..|CodeIntro| + 6] == code
  {
    var text := CodeMail(email, code).text;
    assert |CodeIntro| == 13;
    assert text[13..19] == code;
  }

  /** `e.message || 'Failed to send code'`. */
  function FailureText(message: string): (r: string)
    ensures r != ""
    ensures message != "" ==> r == message
    ensures message == "" ==> r == "Failed to send code"
  {
    if message != "" then message else "Failed to send code"
  }

  datatype SendCodeResult = SendCodeResult(response: Response, codes: Codes, mail: Option<Mail>)

  /** One call of the send-code route: the response, the new ledger, and the mail handed to the transport. */
  function HandleSendCode(codes: Codes, body: Body, now: int, draw: Draw,
                          isEmail: EmailCheck, delivery: Delivery): (r: SendCodeResult)
    ensures codes.Keys <= r.codes.Keys
    ensures r.mail.Some? <==> ParseEmailBody(body, isEmail).Some?
    ensures r.response.ok <==> r.response.status == 200
    ensures ParseEmailBody(body, isEmail).Some? && delivery.Delivered?
            ==> r.response == Response(200, true, Plain("We sent you a 6-digit code."))
    ensures ParseEmailBody(body, isEmail).Some? && delivery.Failed?
            ==> r.response == Response(502, false, Plain(FailureText(delivery.message)))
  {
    match ParseEmailBody(body, isEmail)
    case None => SendCodeResult(Response(400, false, ValidationReport), codes, None)
    case Some(email) =>
      var code := CodeFromDraw(draw);
      var issued := Issue(codes, Lc(Some(email)), code, now);
      var mail := Some(CodeMail(email, code));
      match delivery
      case Delivered => SendCodeResult(Response(200, true, Plain("We sent you a 6-digit code.")), issued, mail)
      case Failed(message) => SendCodeResult(Response(502, false, Plain(FailureText(message))), issued, mail)
  }

  // ---- verify-and-send ----

  /** How a redemption ends; the catch-all turns every thrown failure into the same 500. */
  datatype Outcome = Sent | BadInput | InvalidOrExpired | NoUser | NoPdf | StoreFailure | MailFailure

  predicate Rejected(o: Outcome) { o == BadInput || o == InvalidOrExpired }

  /** 200 only for success; a 4xx exactly for the caller-side reasons; every thrown failure is 500. */
  function Status(o: Outcome): (r: int)
    ensures r == 200 <==> o == Sent
    ensures 400 <= r < 500 <==> o == InvalidOrExpired || o == NoUser || o == NoPdf
    ensures r == 500 <==> o == BadInput || o == StoreFailure || o == MailFailure
    ensures r == 400 <==> o == InvalidOrExpired
    ensures r == 404 <==> o == NoUser || o == NoPdf
  {
    match o
    case Sent => 200
    case InvalidOrExpired => 400
    case NoUser => 404
    case NoPdf => 404
    case BadInput => 500
    case StoreFailure => 500
    case MailFailure => 500
  }

  /** Every thrown failure shares the catch-all text; every other outcome has a text of its own. */
  function OutcomeText(o: Outcome): (r: string)
    ensures r != ""
    ensures r == "Could not send email." <==> o == BadInput || o == StoreFailure || o == MailFailure
    ensures r == "PDF sent! Check your inbox." <==> o == Sent
    ensures r == "Invalid or expired code." <==> o == InvalidOrExpired
    ensures r == "No user for this email." <==> o == NoUser
    ensures r == "No PDF stored for this user." <==> o == NoPdf
  {
    match o
    case Sent => "PDF sent! Check your inbox."
    case InvalidOrExpired => "Invalid or expired code."
    case NoUser => "No user for this email."
    case NoPdf => "No PDF stored for this user."
    case BadInput => "Could not send email."
    case StoreFailure => "Could not send email."
    case MailFailure => "Could not send email."
  }

  function ResponseFor(o: Outcome): (r: Response)
    ensures r.ok <==> r.status == 200
    ensures r.message.Plain? && r.message.text != ""
  {
    Response(Status(o), o == Sent, Plain(OutcomeText(o)))
  }

  /** `user.pdfFilename || 'document.pdf'`: an unset or empty name falls back to the default. */
  function AttachmentName(u: UserRecord): (r: string)
    ensures r != ""
    ensures u.pdfFilename.Some? && u.pdfFilename.value != "" ==> r == u.pdfFilename.value
    ensures u.pdfFilename.None? || u.pdfFilename == Some("") ==> r == "document.pdf"
  {
    match u.pdfFilename
    case Some(name) => if name != "" then name else "document.pdf"
    case None => "document.pdf"
  }

  /** `user.pdfMime || 'application/pdf'`: an unset or empty type falls back to the default. */
  function AttachmentType(u: UserRecord): (r: string)
    ensures r != ""
    ensures u.pdfMime.Some? && u.pdfMime.value != "" ==> r == u.pdfMime.value
    ensures u.pdfMime.None? || u.pdfMime == Some("") ==> r == "application/pdf"
  {
    match u.pdfMime
    case Some(mime) => if mime != "" then mime else "application/pdf"
    case None => "application/pdf"
  }

  /** The PDF mail goes to the typed address with one attachment: the stored bytes under the defaulted name and type. */
  function PdfMail(email: string, u: UserRecord): (m: Mail)
    requires u.pdf.Some?
    ensures m.to == email && |m.attachments| == 1
    ensures m.attachments[0].content == u.pdf.value
    ensures m.attachments[0].filename == AttachmentName(u)
    ensures m.attachments[0].contentType == AttachmentType(u)
  {
    Mail(email, "Your requested PDF", "Thanks! Here is your PDF.",
         [Attachment(AttachmentName(u), u.pdf.value, AttachmentType(u))])
  }

  datatype VerifyResult = VerifyResult(outcome: Outcome, codes: Codes, mail: Option<Mail>)

  /** One call of the verify-and-send route: the outcome, the new ledger, and the mail handed to the transport. */
  function HandleVerifyAndSend(codes: Codes, body: Body, now: int, isEmail: EmailCheck,
                               store: Store, delivery: Delivery): (r: VerifyResult)
    ensures r.codes.Keys <= codes.Keys
    ensures forall k :: k in r.codes ==> r.codes[k] == codes[k]
    ensures r.mail.Some? ==> r.outcome == Sent || r.outcome == MailFailure
  {
    match ParseVerifyBody(body, isEmail)
    case None => VerifyResult(BadInput, codes, None)
    case Some(Credentials(email, code)) =>
      var key := Lc(Some(email));
      if !Accepts(codes, key, code, now) then VerifyResult(InvalidOrExpired, codes, None)
      else
        var rest := Consume(codes, key);
        if !store.reachable then VerifyResult(StoreFailure, rest, None)
        else if key !in store.users then VerifyResult(NoUser, rest, None)
        else
          var user := store.users[key];
          if user.pdf.None? then VerifyResult(NoPdf, rest, None)
          else VerifyResult(if delivery.Delivered? then Sent else MailFailure, rest, Some(PdfMail(email, user)))
  }

  // ---- the server's state ----

  /** The running server: its one piece of mutable state is the ledger (`const codes = new Map()`). */
  class App {
    var codes: Codes

    constructor ()
      ensures codes == map[]
    {
      codes := map[];
    }

    method SendCode(body: Body, now: int, draw: Draw, isEmail: EmailCheck, delivery: Delivery)
      returns (response: Response, mail: Option<Mail>)
      modifies this
      ensures HandleSendCode(old(codes), body, now, draw, isEmail, delivery) == SendCodeResult(response, codes, mail)
    {
      var parsed := ParseEmailBody(body, isEmail);
      if parsed.None? {
        return Response(400, false, ValidationReport), None;
      }
      var email := parsed.value;
      var key := Lc(Some(email));
      var code := CodeFromDraw(draw);
      var expiresAt := now + CodeTtlMs;
      codes := codes[key := Entry(code, expiresAt)];
      mail := Some(CodeMail(email, code));
      match delivery {
        case Delivered =>
          response := Response(200, true, Plain("We sent you a 6-digit code."));
        case Failed(message) =>
          response := Response(502, false, Plain(FailureText(message)));
      }
    }

    method VerifyAndSend(body: Body, now: int, isEmail: EmailCheck, store: Store, delivery: Delivery)
      returns (response: Response, mail: Option<Mail>)
      modifies this
      ensures var r := HandleVerifyAndSend(old(codes), body, now, isEmail, store, delivery);
              codes == r.codes && response == ResponseFor(r.outcome) && mail == r.mail
    {
      var parsed := ParseVerifyBody(body, isEmail);
      if parsed.None? {
        return ResponseFor(BadInput), None;
      }
      var email, code := parsed.value.email, parsed.value.code;
      var key := Lc(Some(email));
      var entry := if key in codes then Some(codes[key]) else None;
      if entry.None? || entry.value.code != code || now > entry.value.expiresAt {
        return ResponseFor(InvalidOrExpired), None;
      }
      codes := codes - {key};
      if !store.reachable {
        return ResponseFor(StoreFailure), None;
      }
      if key !in store.users {
        return ResponseFor(NoUser), None;
      }
      var user := store.users[key];
      if user.pdf.None? {
        return ResponseFor(NoPdf), None;
      }
      mail := Some(PdfMail(email, user));
      var outcome := if delivery.Delivered? then Sent else MailFailure;
      response := ResponseFor(outcome);
    }
  }

  // ---- properties of send-code ----

  /** 400 exactly for invalid input, 502 exactly for a failed delivery, 200 otherwise. */
  lemma SendCodeStatus(codes: Codes, body: Body, now: int, draw: Draw, isEmail: EmailCheck, delivery: Delivery)
    ensures var r := HandleSendCode(codes, body, now, draw, isEmail, delivery);
            && (r.response.status == 400 <==> ParseEmailBody(body, isEmail).None?)
            && (r.response.status == 502 <==> ParseEmailBody(body, isEmail).Some? && delivery.Failed?)
            && (r.response.status == 200 <==> ParseEmailBody(body, isEmail).Some? && delivery.Delivered?)
            && (r.response.ok <==> r.response.status == 200)
            && (ParseEmailBody(body, isEmail).None? ==> r.response == Response(400, false, ValidationReport))
            && (ParseEmailBody(body, isEmail).Some? && delivery.Delivered?
                ==> r.response == Response(200, true, Plain("We sent you a 6-digit code.")))
            && (ParseEmailBody(body, isEmail).Some? && delivery.Failed?
                ==> r.response == Response(502, false, Plain(FailureText(delivery.message))))
  {
  }

  /** Invalid input changes nothing and sends nothing. */
  lemma SendCodeInvalidInput(codes: Codes, body: Body, now: int, draw: Draw, isEmail: EmailCheck, delivery: Delivery)
    requires ParseEmailBody(body, isEmail).None?
    ensures var r := HandleSendCode(codes, body, now, draw, isEmail, delivery);
            r.codes == codes && r.mail.None?
  {
  }

  /**
    On valid input the new code is stored before mailing and kept whatever the
    transport does: it is live for ten minutes under the lowercased address,
    the mail to the typed address carries it, and every other slot is untouched.
  */
  lemma SendCodeIssues(codes: Codes, email: string, other: Field, now: int, draw: Draw,
                       isEmail: EmailCheck, delivery: Delivery, t: int)
    requires isEmail(email)
    ensures var r := HandleSendCode(codes, Object(Str(email), other), now, draw, isEmail, delivery);
            var key := Lc(Some(email));
            && r.codes.Keys == codes.Keys + {key}
            && (forall k :: k in codes && k != key ==> r.codes[k] == codes[k])
            && r.codes[key] == Entry(CodeFromDraw(draw), now + CodeTtlMs)
            && (Accepts(r.codes, key, CodeFromDraw(draw), t) <==> t <= now + CodeTtlMs)
            && r.mail.Some? && r.mail.value.to == email
            && r.mail.value.text[|CodeIntro|..|CodeIntro| + 6] == CodeFromDraw(draw)
  {
    CodeMailCarriesCode(email, CodeFromDraw(draw));
  }

  // ---- properties of verify-and-send ----

  /** Malformed input fails before the ledger is read, with the same 500 as a failed delivery. */
  lemma VerifyBadInput(codes: Codes, body: Body, now: int, isEmail: EmailCheck, store: Store, delivery: Delivery)
    ensures var r := HandleVerifyAndSend(codes, body, now, isEmail, store, delivery);
            && (r.outcome == BadInput <==> ParseVerifyBody(body, isEmail).None?)
            && (r.outcome == BadInput ==> r.codes == codes && r.mail.None?
                                          && ResponseFor(r.outcome) == ResponseFor(MailFailure)
                                          && ResponseFor(r.outcome) == Response(500, false, Plain("Could not send email.")))
  {
  }

  /** A code that is not six digits is refused as malformed input. */
  lemma VerifyRejectsMalformedCode(codes: Codes, email: string, code: string, now: int,
                                   isEmail: EmailCheck, store: Store, delivery: Delivery)
    requires !MatchesCodePattern(code)
    ensures HandleVerifyAndSend(codes, Object(Str(email), Str(code)), now, isEmail, store, delivery).outcome == BadInput
  {
  }

  /**
    Well-formed input passes the check exactly when the ledger accepts the code;
    otherwise the ledger is unchanged and the answer is the one undifferentiated 400.
  */
  lemma VerifyCheck(codes: Codes, email: string, code: string, now: int,
                    isEmail: EmailCheck, store: Store, delivery: Delivery)
    requires isEmail(email) && MatchesCodePattern(code)
    ensures var r := HandleVerifyAndSend(codes, Object(Str(email), Str(code)), now, isEmail, store, delivery);
            && (Rejected(r.outcome) <==> !Accepts(codes, Lc(Some(email)), code, now))
            && (Rejected(r.outcome) ==> r.codes == codes && r.mail.None?
                                        && ResponseFor(r.outcome) == Response(400, false, Plain("Invalid or expired code.")))
  {
  }

  /**
    A code that passes the check is deleted before the lookup, whatever the lookup
    and the delivery do; a second redemption of it afterwards fails the check.
  */
  lemma VerifySingleUse(codes: Codes, body: Body, now: int, isEmail: EmailCheck, store: Store, delivery: Delivery,
                        later: int, store2: Store, delivery2: Delivery)
    requires !Rejected(HandleVerifyAndSend(codes, body, now, isEmail, store, delivery).outcome)
    ensures var r := HandleVerifyAndSend(codes, body, now, isEmail, store, delivery);
            var key := Lc(Some(body.email.s));
            && body.Object? && body.email.Str?
            && r.codes == Consume(codes, key)
            && key in codes && key !in r.codes
            && HandleVerifyAndSend(r.codes, body, later, isEmail, store2, delivery2).outcome == InvalidOrExpired
  {
    var key := Lc(Some(body.email.s));
    ConsumedRejects(codes, key, body.code.s, later);
  }

  /** After the check passes, the lookup decides the outcome step by step. */
  lemma VerifyLookup(codes: Codes, body: Body, now: int, isEmail: EmailCheck, store: Store, delivery: Delivery)
    requires !Rejected(HandleVerifyAndSend(codes, body, now, isEmail, store, delivery).outcome)
    ensures body.Object? && body.email.Str?
    ensures var r := HandleVerifyAndSend(codes, body, now, isEmail, store, delivery);
            var key := Lc(Some(body.email.s));
            && (r.outcome == StoreFailure <==> !store.reachable)
            && (r.outcome == NoUser <==> store.reachable && key !in store.users)
            && (r.outcome == NoPdf <==> store.reachable && key in store.users && store.users[key].pdf.None?)
            && (r.mail.Some? <==> store.reachable && key in store.users && store.users[key].pdf.Some?)
            && (r.mail.Some? ==> r.mail == Some(PdfMail(body.email.s, store.users[key]))
                                 && (r.outcome == Sent <==> delivery.Delivered?)
                                 && (r.outcome == MailFailure <==> delivery.Failed?))
            && (r.outcome == StoreFailure ==> ResponseFor(r.outcome) == Response(500, false, Plain("Could not send email.")))
            && (r.outcome == NoUser ==> ResponseFor(r.outcome) == Response(404, false, Plain("No user for this email.")))
            && (r.outcome == NoPdf ==> ResponseFor(r.outcome) == Response(404, false, Plain("No PDF stored for this user.")))
            && (r.outcome == MailFailure ==> ResponseFor(r.outcome) == Response(500, false, Plain("Could not send email.")))
            && (r.outcome == Sent ==> ResponseFor(r.outcome) == Response(200, true, Plain("PDF sent! Check your inbox.")))
  {
  }

  // ---- the two routes together ----

  function SendBody(email: string): Body { Object(Str(email), Missing) }

  function VerifyBody(email: string, code: string): Body { Object(Str(email), Str(code)) }

  /**
    Request a code, then redeem the mailed code within ten minutes with the
    address in any letter case: the check passes (even if the first mail was
    never delivered), the slot is emptied, the PDF is sent when the user has one
    and the transport delivers, and the same code is refused at any later instant
    on the ledger the redemption leaves.
  */
  lemma IssueThenRedeem(codes: Codes, email: string, typed: string, draw: Draw, now: int, t: int,
                        isEmail: EmailCheck, sendDelivery: Delivery, store: Store, delivery: Delivery, later: int)
    requires isEmail(email) && isEmail(typed) && EqualIgnoringCase(email, typed)
    requires t <= now + CodeTtlMs
    ensures var issued := HandleSendCode(codes, SendBody(email), now, draw, isEmail, sendDelivery).codes;
            var r := HandleVerifyAndSend(issued, VerifyBody(typed, CodeFromDraw(draw)), t, isEmail, store, delivery);
            var key := Lc(Some(email));
            && !Rejected(r.outcome)
            && key !in r.codes
            && (forall k :: k in codes && k != key ==> k in r.codes && r.codes[k] == codes[k])
            && (store.reachable && key in store.users && store.users[key].pdf.Some? && delivery.Delivered?
                ==> r.outcome == Sent && r.mail == Some(PdfMail(typed, store.users[key])))
            && HandleVerifyAndSend(r.codes, VerifyBody(typed, CodeFromDraw(draw)), later, isEmail, store, delivery).outcome
               == InvalidOrExpired
  {
    SameKeyIffEqualIgnoringCase(email, typed);
    var issued := HandleSendCode(codes, SendBody(email), now, draw, isEmail, sendDelivery).codes;
    var body := VerifyBody(typed, CodeFromDraw(draw));
    VerifySingleUse(issued, body, t, isEmail, store, delivery, later, store, delivery);
  }

  /** Redeeming after the ten minutes are up fails the check and leaves the ledger alone. */
  lemma ExpiredCodeRejected(codes: Codes, email: string, draw: Draw, now: int, t: int,
                            isEmail: EmailCheck, sendDelivery: Delivery, store: Store, delivery: Delivery)
    requires isEmail(email)
    requires t > now + CodeTtlMs
    ensures var issued := HandleSendCode(codes, SendBody(email), now, draw, isEmail, sendDelivery).codes;
            var r := HandleVerifyAndSend(issued, VerifyBody(email, CodeFromDraw(draw)), t, isEmail, store, delivery);
            r.outcome == InvalidOrExpired && r.codes == issued && r.mail.None?
  {
  }

  /**
    Requesting a second code invalidates the first: redeeming the first code
    passes the check only when both draws were equal.
  */
  lemma ReissueInvalidatesFirst(codes: Codes, email: string, d1: Draw, t1: int, d2: Draw, t2: int, t: int,
                                isEmail: EmailCheck, del1: Delivery, del2: Delivery, store: Store, delivery: Delivery)
    requires isEmail(email)
    ensures var first := HandleSendCode(codes, SendBody(email), t1, d1, isEmail, del1).codes;
            var second := HandleSendCode(first, SendBody(email), t2, d2, isEmail, del2).codes;
            var r := HandleVerifyAndSend(second, VerifyBody(email, CodeFromDraw(d1)), t, isEmail, store, delivery);
            !Rejected(r.outcome) <==> d1 == d2 && t <= t2 + CodeTtlMs
  {
    OverwriteInvalidatesDraws(codes, Lc(Some(email)), d1, t1, d2, t2, t);
  }
}
