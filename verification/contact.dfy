/** Contact intake: the client address and user agent a message records,
    the form's cleaning rules, and `contact_submit` as a store transition
    together with the notification it addresses. */
module Contact {
  import opened Common
  import opened Text
  import opened Entities
  import opened Models
  import opened Pages

  // ------------------------------------------------------ request headers

  /** The request headers the intake reads; None where a header is absent. */
  datatype RequestMeta = RequestMeta(forwardedFor: Option<string>, remoteAddr: Option<string>,
                                     userAgent: Option<string>)

  /** Whether an X-Forwarded-For header is present and non-empty. */
  predicate Forwarded(meta: RequestMeta) {
    meta.forwardedFor.Some? && meta.forwardedFor.value != ""
  }

  /** `get_client_ip`: the text of X-Forwarded-For before its first comma,
      untrimmed, when that header is non-empty; REMOTE_ADDR otherwise. */
  function ClientIp(meta: RequestMeta): (r: Option<string>)
    ensures Forwarded(meta) ==>
              var xff := meta.forwardedFor.value;
              && r.Some? && r.value <= xff && ',' !in r.value
              && (|r.value| == |xff| || xff[|r.value|] == ',')
    ensures !Forwarded(meta) ==> r == meta.remoteAddr
  {
    if Forwarded(meta) then
      SplitHead(meta.forwardedFor.value, ',');
      Some(Split(meta.forwardedFor.value, ',')[0])
    else meta.remoteAddr
  }

  /** The first hop of a forwarded chain is recorded exactly as written,
      surrounding spaces included, whatever follows the comma. */
  lemma ClientIpFirstHop(meta: RequestMeta, hop: string, rest: string)
    requires ',' !in hop
    requires meta.forwardedFor == Some(hop + [','] + rest)
    ensures ClientIp(meta) == Some(hop)
  {
    SplitConcat(hop, rest, ',');
    SplitWithoutSeparator(hop, ',');
  }

  /** A header without a comma is recorded whole. */
  lemma ClientIpSingleHop(meta: RequestMeta)
    requires Forwarded(meta) && ',' !in meta.forwardedFor.value
    ensures ClientIp(meta) == meta.forwardedFor
  {
    SplitWithoutSeparator(meta.forwardedFor.value, ',');
  }

  const UserAgentLimit: nat := 500

  /** The user agent a message records: the header cut to its first 500
      characters, the empty string when absent. */
  function StoredUserAgent(meta: RequestMeta): (r: string)
    ensures |r| <= UserAgentLimit
    ensures meta.userAgent.None? ==> r == ""
    ensures meta.userAgent.Some? ==> r <= meta.userAgent.value
    ensures meta.userAgent.Some? ==> |r| == Min(UserAgentLimit, |meta.userAgent.value|)
  {
    match meta.userAgent
    case None => ""
    case Some(ua) => Take(ua, UserAgentLimit)
  }

  /** Truncation is idempotent: a recorded user agent sent again is
      recorded unchanged. */
  lemma StoredUserAgentIdempotent(meta: RequestMeta)
    ensures StoredUserAgent(meta.(userAgent := Some(StoredUserAgent(meta)))) == StoredUserAgent(meta)
  {
  }

  // ----------------------------------------------------------- the form

  /** The posted form fields; a field that was not posted is "". */
  datatype ContactForm = ContactForm(name: string, email: string, subject: string, message: string)

  const NameMaxLength: nat := 200
  const EmailMaxLength: nat := 254
  const SubjectMaxLength: nat := 300

  /** The character every form `CharField` refuses (Django's
      `ProhibitNullCharactersValidator`), checked on the stripped value. */
  const Nul: char := 0 as char

  /** Field-by-field validity after stripping: `name` required and at most
      200 characters, `email` required, at most 254 characters and an
      address, `subject` optional and at most 300, `message` required; no
      non-empty field may hold a NUL character. */
  predicate NameOk(f: ContactForm) {
    Strip(f.name) != "" && |Strip(f.name)| <= NameMaxLength && Nul !in Strip(f.name)
  }

  predicate EmailOk(f: ContactForm, isEmail: string -> bool) {
    Strip(f.email) != "" && |Strip(f.email)| <= EmailMaxLength && Nul !in Strip(f.email) && isEmail(Strip(f.email))
  }

  predicate SubjectOk(f: ContactForm) { |Strip(f.subject)| <= SubjectMaxLength && Nul !in Strip(f.subject) }

  predicate MessageOk(f: ContactForm) { Strip(f.message) != "" && Nul !in Strip(f.message) }

  /** The names of the fields whose flag is down, in form order. */
  function Refused(name: bool, email: bool, subject: bool, message: bool): (r: seq<string>)
    ensures "name" in r <==> !name
    ensures "email" in r <==> !email
    ensures "subject" in r <==> !subject
    ensures "message" in r <==> !message
    ensures r == [] <==> name && email && subject && message
  {
    assert "subject"[0] != "message"[0];
    (if name then [] else ["name"]) + (if email then [] else ["email"]) +
    (if subject then [] else ["subject"]) + (if message then [] else ["message"])
  }

  /** The names of the refused fields, in form order. */
  function FieldErrors(f: ContactForm, isEmail: string -> bool): (r: seq<string>)
    ensures "name" in r <==> !NameOk(f)
    ensures "email" in r <==> !EmailOk(f, isEmail)
    ensures "subject" in r <==> !SubjectOk(f)
    ensures "message" in r <==> !MessageOk(f)
    ensures r == [] <==> NameOk(f) && EmailOk(f, isEmail) && SubjectOk(f) && MessageOk(f)
  {
    Refused(NameOk(f), EmailOk(f, isEmail), SubjectOk(f), MessageOk(f))
  }

  /** `form.is_valid()` with `cleaned_data`: every field stripped, or the
      refused fields. `isEmail` is the address syntax check, left abstract. */
  function CleanContact(f: ContactForm, isEmail: string -> bool): (r: Result<ContactForm>)
    ensures r.Ok? <==> NameOk(f) && EmailOk(f, isEmail) && SubjectOk(f) && MessageOk(f)
    ensures r.Ok? ==> r.value == ContactForm(Strip(f.name), Strip(f.email), Strip(f.subject), Strip(f.message))
    ensures r.Ok? ==> r.value.name != "" && r.value.email != "" && r.value.message != ""
    ensures r.Ok? ==> |r.value.name| <= NameMaxLength && |r.value.email| <= EmailMaxLength &&
                      |r.value.subject| <= SubjectMaxLength
    ensures r.Ok? ==> Nul !in r.value.name && Nul !in r.value.email && Nul !in r.value.subject &&
                      Nul !in r.value.message
    ensures r.Err? ==> r.error.Invalid? && r.error.fields != [] && r.error.fields == FieldErrors(f, isEmail)
  {
    var errors := FieldErrors(f, isEmail);
    if errors == [] then Ok(ContactForm(Strip(f.name), Strip(f.email), Strip(f.subject), Strip(f.message)))
    else Err(Invalid(errors))
  }

  /** Cleaning is idempotent: cleaned data submitted again passes unchanged. */
  lemma CleanIdempotent(f: ContactForm, isEmail: string -> bool)
    requires CleanContact(f, isEmail).Ok?
    ensures CleanContact(CleanContact(f, isEmail).value, isEmail) == CleanContact(f, isEmail)
  {
    StripIdempotent(f.name);
    StripIdempotent(f.email);
    StripIdempotent(f.subject);
    StripIdempotent(f.message);
  }

  // ---------------------------------------------------------- submission

  /** The notification mail as addressed: recipient and subject line. */
  datatype Notification = Notification(recipient: string, subject: string)

  const SubjectPrefix: string := "New Contact Form Submission: "
  const NoSubject: string := "No Subject"

  /** The notification address: `notification_email`, or `contact_email`
      when that is empty. */
  function Recipient(s: SiteSettings): (r: string)
    ensures s.notificationEmail != "" ==> r == s.notificationEmail
    ensures s.notificationEmail == "" ==> r == s.contactEmail
  {
    if s.notificationEmail != "" then s.notificationEmail else s.contactEmail
  }

  /** The mail subject: the message's subject, or "No Subject" when it has
      none, after the fixed prefix. */
  function MailSubject(m: ContactMessage): (r: string)
    ensures SubjectPrefix <= r
    ensures r[|SubjectPrefix|..] == if m.subject == "" then NoSubject else m.subject
  {
    SubjectPrefix + (if m.subject == "" then NoSubject else m.subject)
  }

  /** What a valid submission answers: the stored message, the mail as
      addressed, and whether it went out. */
  datatype Submission = Submission(message: ContactMessage, notice: Notification, delivered: bool)

  /** The message a valid submission creates. */
  function NewMessage(st: Store, clean: ContactForm, meta: RequestMeta, now: int): (m: ContactMessage)
    ensures m.status == New && !m.isRead && m.createdAt == now
    ensures forall x :: x in st.messages ==> x.id < m.id
    ensures m.name == clean.name && m.email == clean.email && m.subject == clean.subject && m.message == clean.message
    ensures m.ipAddress == ClientIp(meta) && m.userAgent == StoredUserAgent(meta)
  {
    ContactMessage(NextId(st.messages, MessageId), clean.name, clean.email, clean.subject, clean.message,
                   New, ClientIp(meta), StoredUserAgent(meta), false, now)
  }

  /** `contact_submit`: a valid form appends one new message, then loads
      the settings to address the notification; `delivered` is the mail's
      fate, which the store never depends on. An invalid form writes
      nothing. */
  function SubmitContact(st: Store, f: ContactForm, meta: RequestMeta, now: int, isEmail: string -> bool,
                         delivered: bool): (r: Outcome<Submission>)
    ensures CleanContact(f, isEmail).Err? ==> r == Outcome(Err(CleanContact(f, isEmail).error), st)
    ensures CleanContact(f, isEmail).Ok? ==>
              var m := NewMessage(st, CleanContact(f, isEmail).value, meta, now);
              var loaded := LoadSettings(st);
              && r.result == Ok(Submission(m, Notification(Recipient(loaded.settings), MailSubject(m)), delivered))
              && r.store.messages == st.messages + [m]
              && r.store.settings == loaded.store.settings
              && r.store.(messages := st.messages, settings := st.settings) == st
  {
    match CleanContact(f, isEmail)
    case Err(e) => Outcome(Err(e), st)
    case Ok(clean) =>
      var m := NewMessage(st, clean, meta, now);
      var created := st.(messages := st.messages + [m]);
      var loaded := LoadSettings(created);
      assert loaded.settings == LoadSettings(st).settings && loaded.store.settings == LoadSettings(st).store.settings;
      Outcome(Ok(Submission(m, Notification(Recipient(loaded.settings), MailSubject(m)), delivered)), loaded.store)
  }

  /** A failed mail cannot undo the intake: the store is the same whether
      the notification went out or not, and it holds the new message. */
  lemma MailCannotRemoveMessage(st: Store, f: ContactForm, meta: RequestMeta, now: int, isEmail: string -> bool)
    requires CleanContact(f, isEmail).Ok?
    ensures SubmitContact(st, f, meta, now, isEmail, false).store == SubmitContact(st, f, meta, now, isEmail, true).store
    ensures SubmitContact(st, f, meta, now, isEmail, false).result.value.message in
              SubmitContact(st, f, meta, now, isEmail, false).store.messages
    ensures |SubmitContact(st, f, meta, now, isEmail, false).store.messages| == |st.messages| + 1
  {
    var r := SubmitContact(st, f, meta, now, isEmail, false);
    assert r.store.messages[|st.messages|] == r.result.value.message;
  }

  /** Intake keeps the store's integrity: the new message takes a fresh key
      and the settings row, if created, the singleton key. */
  lemma SubmitKeepsValid(st: Store, f: ContactForm, meta: RequestMeta, now: int, isEmail: string -> bool,
                         delivered: bool)
    requires Valid(st)
    ensures Valid(SubmitContact(st, f, meta, now, isEmail, delivered).store)
  {
    if CleanContact(f, isEmail).Ok? {
      var m := NewMessage(st, CleanContact(f, isEmail).value, meta, now);
      var created := st.(messages := st.messages + [m]);
      assert m.id !in KeySet(st.messages, MessageId);
      AppendKeepsUnique(st.messages, m, MessageId);
      assert Valid(created);
      LoadKeepsValid(created);
    }
  }
}
