/**
 * The POST /send handler (app.py:41-82) with the web framework and the mail
 * transport taken out: the process configuration and the submitted form are
 * parameters, and so is what the transport does with the message it is
 * handed.  The handler checks the credentials, parses the three address
 * fields, merges the hidden blind copies, insists on at least one `To`
 * address, builds the message and maps the transport's outcome to a reply.
 */
module SendHandler {
  import opened Wrappers
  import opened PyStr
  import opened EmailList
  import opened HiddenBcc
  import opened BodyHtml

  /**
   * The mail settings the handler reads.  defaultSender is MAIL_DEFAULT_SENDER
   * as configured (it defaults to the username when unset); hiddenBcc is
   * HIDDEN_BCC with surrounding whitespace already stripped.
   */
  datatype Config = Config(username: string, password: string, defaultSender: string, hiddenBcc: string)

  /**
   * HIDDEN_BCC as the configuration holds it: the environment value, or the
   * empty string when unset, with surrounding whitespace stripped.
   */
  function HiddenBccSetting(env: Option<string>): (setting: string)
    ensures Trimmed(setting)
    ensures env.None? ==> setting == []
    ensures env.Some? ==> |setting| <= |env.value|
  {
    if env.Some? then Strip(env.value) else []
  }

  /**
   * Stripping HIDDEN_BCC when it is loaded does not change the addresses the
   * handler parses out of it, and a value made only of whitespace yields none.
   */
  lemma HiddenBccParsesAsRaw(env: string)
    ensures ParseEmails(Some(HiddenBccSetting(Some(env)))) == ParseEmails(Some(env))
    ensures AllSpace(env) ==> ParseEmails(Some(HiddenBccSetting(Some(env)))) == []
  {
    ParseEmailsOuterWhitespace(env);
    if AllSpace(env) {
      ParseEmailsAllSpace(env);
    }
  }

  /** The submitted form fields; a field that was not submitted is None. */
  datatype Form = Form(to: Option<string>, cc: Option<string>, bcc: Option<string>,
                       subject: Option<string>, body: Option<string>)

  /** The outgoing message as it is handed to the transport. */
  datatype Message = Message(subject: string, sender: string, recipients: seq<string>,
                             cc: seq<string>, bcc: seq<string>, body: string, html: string)

  /**
   * What sending does: it returns normally, raises an SMTP authentication
   * error, raises some other SMTP error, or raises an exception that is not
   * an SMTP error at all (a refused connection, for one).  The detail is the
   * text the handler would quote from the exception.
   */
  datatype Delivery = Delivered | AuthFailure(detail: string) | SmtpFailure(detail: string) | OtherFailure

  /**
   * The handler's answer: a plain-text reply with its HTTP status, or an
   * exception that escapes the handler and is left to the framework.
   */
  datatype Response = Reply(text: string, status: int) | Escaped

  const CredentialsMissing := "Mail credentials are not configured. Set MAIL_USERNAME and MAIL_PASSWORD (e.g., via .env)."
  const ToRequired := "'To' is required."
  const AuthPrefix := "SMTP authentication failed. Verify username/app password and provider settings. Details: "
  const SmtpPrefix := "SMTP error: "
  const SentText := "Email sent successfully!"

  /** `value or ''` for a form field. */
  function OrEmpty(value: Option<string>): (s: string)
    ensures value.Some? ==> s == value.value
    ensures value.None? ==> s == []
  {
    if value.Some? then value.value else []
  }

  /**
   * The sender of the message: MAIL_DEFAULT_SENDER, or the username when that
   * is empty.
   */
  function Sender(config: Config): (sender: string)
    ensures sender == config.defaultSender || sender == config.username
    ensures config.defaultSender != [] ==> sender == config.defaultSender
    ensures config.username != [] ==> sender != []
  {
    if config.defaultSender != [] then config.defaultSender else config.username
  }

  /**
   * Both credentials are configured.  Once they are, the message never goes
   * out without a sender.
   */
  predicate HasCredentials(config: Config)
    ensures HasCredentials(config) ==> Sender(config) != []
  {
    config.username != [] && config.password != []
  }

  /**
   * The reply for each transport outcome: the success text with 200, the
   * exception's detail behind a fixed prefix with 500 for an SMTP failure, and
   * no reply at all for an exception that is not an SMTP error.
   */
  function Outcome(delivery: Delivery): (response: Response)
    ensures response.Reply? <==> !delivery.OtherFailure?
    ensures response.Reply? ==> (response.status == 200 <==> delivery.Delivered?)
    ensures response.Reply? && response.status != 200 ==> response.status == 500
    ensures delivery.Delivered? ==> response == Reply(SentText, 200)
    ensures delivery.AuthFailure? ==>
      && response.Reply? && response.status == 500
      && |response.text| == |AuthPrefix| + |delivery.detail|
      && response.text[..|AuthPrefix|] == AuthPrefix
      && response.text[|AuthPrefix|..] == delivery.detail
    ensures delivery.SmtpFailure? ==>
      && response.Reply? && response.status == 500
      && |response.text| == |SmtpPrefix| + |delivery.detail|
      && response.text[..|SmtpPrefix|] == SmtpPrefix
      && response.text[|SmtpPrefix|..] == delivery.detail
  {
    match delivery
    case Delivered => Reply(SentText, 200)
    case AuthFailure(detail) => Reply(AuthPrefix + detail, 500)
    case SmtpFailure(detail) => Reply(SmtpPrefix + detail, 500)
    case OtherFailure => Escaped
  }

  /**
   * The message is built from its header fields, then given the body as
   * plain text and the body rendered as HTML.
   */
  method ComposeMessage(subject: string, sender: string, to: seq<string>, cc: seq<string>,
                        bcc: seq<string>, body: string) returns (msg: Message)
    ensures msg.subject == subject && msg.sender == sender
    ensures msg.recipients == to && msg.cc == cc && msg.bcc == bcc
    ensures msg.body == body && msg.html == RenderHtml(body)
    ensures '\n' !in msg.html
  {
    msg := Message(subject, sender, to, cc, bcc, [], []);
    msg := msg.(body := body);
    var htmlBody := Linkify(body);
    msg := msg.(html := ReplaceNewlines(htmlBody));
  }

  /**
   * One request.  attempted is the message handed to the transport, None when
   * the handler answers before sending.
   */
  method SendEmail(config: Config, form: Form, delivery: Delivery) returns (response: Response, attempted: Option<Message>)
    // Missing credentials: 500, nothing sent, whatever the form holds.
    ensures !HasCredentials(config) ==> response == Reply(CredentialsMissing, 500) && attempted == None
    // No usable To address: 400, nothing sent, even with cc, bcc or hidden copies.
    ensures HasCredentials(config) && ParseEmails(form.to) == [] ==> response == Reply(ToRequired, 400) && attempted == None
    // Otherwise exactly one message is handed over and the reply follows the outcome.
    ensures attempted.Some? <==> HasCredentials(config) && ParseEmails(form.to) != []
    ensures attempted.Some? ==> response == Outcome(delivery)
    ensures attempted.Some? ==>
      var msg := attempted.value;
      var userBcc := ParseEmails(form.bcc);
      var hidden := ParseEmails(Some(config.hiddenBcc));
      && msg.subject == OrEmpty(form.subject)
      && msg.sender == Sender(config)
      && msg.sender != []
      && msg.recipients == ParseEmails(form.to) && msg.recipients != []
      && msg.cc == ParseEmails(form.cc)
      && msg.bcc == userBcc + Additions(LowerSet(userBcc), hidden)
      && (forall h :: h in hidden ==> Lower(h) in LowerSet(msg.bcc))
      && msg.body == OrEmpty(form.body)
      && msg.html == RenderHtml(msg.body)
  {
    if !HasCredentials(config) {
      return Reply(CredentialsMissing, 500), None;
    }

    var toList := ParseEmails(form.to);
    var ccList := ParseEmails(form.cc);
    var bccList := ParseEmails(form.bcc);
    var subject := OrEmpty(form.subject);
    var body := OrEmpty(form.body);

    var hidden := ParseEmails(Some(config.hiddenBcc));
    var userBcc := bccList;
    bccList := MergeHiddenBcc(bccList, hidden);

    if toList == [] {
      return Reply(ToRequired, 400), None;
    }

    var sender := Sender(config);
    var msg := ComposeMessage(subject, sender, toList, ccList, bccList, body);
    attempted := Some(msg);
    response := Outcome(delivery);
  }
}
