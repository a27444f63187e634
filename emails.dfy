/**
 * Composing an email: the builder that accumulates sender, recipients, subject and body,
 * the validating `build`, and the form fields a composed email is posted as.
 */
module Emails {
  import opened Wrappers
  import opened Errors
  import opened Strings

  /** The subject `build` uses when none was given. */
  const NoSubject := "no subject"

  /** The separator `build` puts between recipients. */
  const Comma := ','

  /** The content of an email: an HTML part and a plain-text part, each optional. */
  datatype EmailBody = EmailBody(html: Option<string>, text: Option<string>)

  /** `EmailBody::default()`: neither part. */
  const EmptyBody := EmailBody(None, None)

  function HtmlOf(body: Option<EmailBody>): Option<string> {
    if body.Some? then body.value.html else None
  }

  function TextOf(body: Option<EmailBody>): Option<string> {
    if body.Some? then body.value.text else None
  }

  /** A composed email; `to` holds every recipient, joined by commas. */
  datatype Email = Email(from: Option<string>, to: string, subject: string, body: Option<EmailBody>)
  {
    /** The first step of `Email::send`: an absent sender becomes the mailer's default. */
    function WithDefaultFrom(default: string): (e: Email)
      ensures e.from == Some(from.GetOr(default))
      ensures from.Some? ==> e == this
      ensures e.(from := from) == this
    {
      if from.None? then this.(from := Some(default)) else this
    }

    /**
     * The fields the email is posted as: `from`, `to`, `subject`, then the body's `html` and
     * `text` flattened in; an absent value contributes no field.
     */
    function FormFields(): (fields: seq<(string, string)>)
      ensures DistinctKeys(fields)
      ensures Lookup(fields, "from") == from
      ensures Lookup(fields, "to") == Some(to)
      ensures Lookup(fields, "subject") == Some(subject)
      ensures Lookup(fields, "html") == HtmlOf(body)
      ensures Lookup(fields, "text") == TextOf(body)
      ensures forall i :: 0 <= i < |fields| ==> fields[i].0 in FieldNames
    {
      var head := Field("from", from) + [("to", to), ("subject", subject)];
      var tail := Field("html", HtmlOf(body)) + Field("text", TextOf(body));
      FormKeys(head, tail, from, to, subject, HtmlOf(body), TextOf(body));
      FormLookups(head, tail, from, to, subject, HtmlOf(body), TextOf(body));
      head + tail
    }
  }

  const FieldNames := {"from", "to", "subject", "html", "text"}

  /** The field `key` with the value of `value`, or no field when `value` is absent. */
  function Field(key: string, value: Option<string>): seq<(string, string)> {
    if value.Some? then [(key, value.value)] else []
  }

  predicate DistinctKeys(fields: seq<(string, string)>) {
    forall i, j :: 0 <= i < j < |fields| ==> fields[i].0 != fields[j].0
  }

  /** The value of the first field named `key`. */
  function Lookup(fields: seq<(string, string)>, key: string): Option<string> {
    if fields == [] then None
    else if fields[0].0 == key then Some(fields[0].1)
    else Lookup(fields[1..], key)
  }

  lemma {:induction false} LookupAppend(a: seq<(string, string)>, b: seq<(string, string)>, key: string)
    ensures Lookup(a + b, key) == if Lookup(a, key).Some? then Lookup(a, key) else Lookup(b, key)
  {
    if a != [] {
      assert (a + b)[1..] == a[1..] + b;
      LookupAppend(a[1..], b, key);
    } else {
      assert a + b == b;
    }
  }

  lemma LookupAbsent(fields: seq<(string, string)>, key: string)
    requires forall i :: 0 <= i < |fields| ==> fields[i].0 != key
    ensures Lookup(fields, key) == None
  {
    if fields != [] {
      LookupAbsent(fields[1..], key);
    }
  }

  lemma LookupField(key: string, value: Option<string>, k: string)
    ensures Lookup(Field(key, value), k) == if k == key then value else None
  {
  }

  /** The posted fields have distinct keys, all among the five field names. */
  lemma FormKeys(head: seq<(string, string)>, tail: seq<(string, string)>,
                 from: Option<string>, to: string, subject: string,
                 html: Option<string>, text: Option<string>)
    requires head == Field("from", from) + [("to", to), ("subject", subject)]
    requires tail == Field("html", html) + Field("text", text)
    ensures DistinctKeys(head + tail)
    ensures forall i :: 0 <= i < |head + tail| ==> (head + tail)[i].0 in FieldNames
  {
  }

  /** Each of the five field names looks up the value it was given. */
  lemma FormLookups(head: seq<(string, string)>, tail: seq<(string, string)>,
                    from: Option<string>, to: string, subject: string,
                    html: Option<string>, text: Option<string>)
    requires head == Field("from", from) + [("to", to), ("subject", subject)]
    requires tail == Field("html", html) + Field("text", text)
    ensures Lookup(head + tail, "from") == from
    ensures Lookup(head + tail, "to") == Some(to)
    ensures Lookup(head + tail, "subject") == Some(subject)
    ensures Lookup(head + tail, "html") == html
    ensures Lookup(head + tail, "text") == text
  {
    var fixed := [("to", to), ("subject", subject)];
    LookupAbsent(fixed, "from");
    LookupAbsent(fixed, "html");
    LookupAbsent(fixed, "text");
    assert Lookup(fixed, "to") == Some(to);
    assert Lookup(fixed[1..], "subject") == Some(subject);
    forall k | k in FieldNames
      ensures Lookup(head + tail, k) == if Lookup(head, k).Some? then Lookup(head, k) else Lookup(tail, k)
      ensures Lookup(head, k) == if Lookup(Field("from", from), k).Some? then Lookup(Field("from", from), k) else Lookup(fixed, k)
      ensures Lookup(tail, k) == if Lookup(Field("html", html), k).Some? then Lookup(Field("html", html), k) else Lookup(Field("text", text), k)
      ensures Lookup(Field("from", from), k) == if k == "from" then from else None
      ensures Lookup(Field("html", html), k) == if k == "html" then html else None
      ensures Lookup(Field("text", text), k) == if k == "text" then text else None
    {
      LookupAppend(head, tail, k);
      LookupAppend(Field("from", from), fixed, k);
      LookupAppend(Field("html", html), Field("text", text), k);
      LookupField("from", from, k);
      LookupField("html", html, k);
      LookupField("text", text, k);
    }
  }

  /**
   * The builder. Every setter consumes the builder and returns it, so the in-place updates of
   * the source are observable only through the returned value.
   */
  datatype EmailBuilder = EmailBuilder(
    from: Option<string>,
    recipients: seq<string>,
    subject: Option<string>,
    body: Option<EmailBody>)
  {
    /** Sets the sender, replacing any earlier one. */
    function From(sender: string): (b: EmailBuilder)
      ensures b.from == Some(sender)
      ensures b.(from := from) == this
    {
      this.(from := Some(sender))
    }

    /** Adds a recipient after those added before. */
    function To(recipient: string): (b: EmailBuilder)
      ensures b.recipients == recipients + [recipient]
      ensures b.(recipients := recipients) == this
    {
      this.(recipients := recipients + [recipient])
    }

    /** Sets the subject, replacing any earlier one. */
    function Subject(title: string): (b: EmailBuilder)
      ensures b.subject == Some(title)
      ensures b.(subject := subject) == this
    {
      this.(subject := Some(title))
    }

    /** Replaces the whole body. */
    function Body(content: EmailBody): (b: EmailBuilder)
      ensures b.body == Some(content)
      ensures b.(body := body) == this
    {
      this.(body := Some(content))
    }

    /** Sets the plain-text part, keeping the HTML part (starting from an empty body if there is none). */
    function TextBody(text: string): (b: EmailBuilder)
      ensures b.body.Some?
      ensures b.body.value.text == Some(text)
      ensures b.body.value.html == HtmlOf(body)
      ensures b.(body := body) == this
    {
      this.(body := Some(body.GetOr(EmptyBody).(text := Some(text))))
    }

    /** Sets the HTML part, keeping the plain-text part (starting from an empty body if there is none). */
    function HtmlBody(html: string): (b: EmailBuilder)
      ensures b.body.Some?
      ensures b.body.value.html == Some(html)
      ensures b.body.value.text == TextOf(body)
      ensures b.(body := body) == this
    {
      this.(body := Some(body.GetOr(EmptyBody).(html := Some(html))))
    }

    /**
     * Validates and finishes the email: no recipient is an error; otherwise the recipients are
     * joined by commas, the subject defaults, and sender and body are carried over.
     */
    function Build(): (r: Result<Email, BuildError>)
      ensures r.Err? <==> recipients == []
      ensures r.Err? ==> r.error == BuildError.MissingField("to")
      ensures r.Ok? ==> r.value.from == from && r.value.body == body
      ensures r.Ok? ==> r.value.subject == (if subject.Some? then subject.value else NoSubject)
      ensures r.Ok? ==> r.value.to == Join(recipients, Comma)
    {
      if recipients == [] then
        Err(BuildError.MissingField("to"))
      else
        Ok(Email(from, Join(recipients, Comma), subject.GetOr(NoSubject), body))
    }
  }

  /** When no recipient contains a comma, the built `to` splits back into the recipients, in order. */
  lemma BuiltRecipientsSplitBack(b: EmailBuilder)
    requires b.recipients != []
    requires forall i :: 0 <= i < |b.recipients| ==> Comma !in b.recipients[i]
    ensures b.Build().Ok? && Split(b.Build().value.to, Comma) == b.recipients
  {
    SplitJoin(b.recipients, Comma);
  }

  /** `EmailBuilder::default()`: nothing set. */
  const DefaultBuilder := EmailBuilder(None, [], None, None)

  /** One call of a builder setter, with its argument. */
  datatype Call =
    | SetFrom(sender: string)
    | AddTo(recipient: string)
    | SetSubject(title: string)
    | SetBody(content: EmailBody)
    | SetTextBody(text: string)
    | SetHtmlBody(html: string)
  {
    predicate TouchesBody() {
      SetBody? || SetTextBody? || SetHtmlBody?
    }
  }

  function Apply(b: EmailBuilder, call: Call): EmailBuilder {
    match call
    case SetFrom(sender) => b.From(sender)
    case AddTo(recipient) => b.To(recipient)
    case SetSubject(title) => b.Subject(title)
    case SetBody(content) => b.Body(content)
    case SetTextBody(text) => b.TextBody(text)
    case SetHtmlBody(html) => b.HtmlBody(html)
  }

  /** The builder after a chain of setter calls, made in order. */
  function Chain(b: EmailBuilder, calls: seq<Call>): EmailBuilder
    decreases |calls|
  {
    if calls == [] then b else Chain(Apply(b, calls[0]), calls[1..])
  }

  /** The recipients the calls add, in call order. */
  function Recipients(calls: seq<Call>): seq<string> {
    if calls == [] then []
    else (if calls[0].AddTo? then [calls[0].recipient] else []) + Recipients(calls[1..])
  }

  /** The optional single-valued parts of a builder. */
  datatype Slot = SenderSlot | SubjectSlot | HtmlSlot | TextSlot

  function SlotOf(b: EmailBuilder, slot: Slot): Option<string> {
    match slot
    case SenderSlot => b.from
    case SubjectSlot => b.subject
    case HtmlSlot => HtmlOf(b.body)
    case TextSlot => TextOf(b.body)
  }

  /** What one call writes into `slot`: nothing, or one value (`body` writes both body parts). */
  function WriteOf(call: Call, slot: Slot): seq<Option<string>> {
    match (call, slot)
    case (SetFrom(sender), SenderSlot) => [Some(sender)]
    case (SetSubject(title), SubjectSlot) => [Some(title)]
    case (SetBody(content), HtmlSlot) => [content.html]
    case (SetBody(content), TextSlot) => [content.text]
    case (SetHtmlBody(html), HtmlSlot) => [Some(html)]
    case (SetTextBody(text), TextSlot) => [Some(text)]
    case _ => []
  }

  /** Every value the calls write into `slot`, in call order. */
  function Writes(calls: seq<Call>, slot: Slot): seq<Option<string>> {
    if calls == [] then [] else WriteOf(calls[0], slot) + Writes(calls[1..], slot)
  }

  /** The last of `writes`, or `initial` when there are none. */
  function Latest(writes: seq<Option<string>>, initial: Option<string>): Option<string> {
    if writes == [] then initial else writes[|writes| - 1]
  }

  lemma LatestAppend(a: seq<Option<string>>, b: seq<Option<string>>, initial: Option<string>)
    ensures Latest(a + b, initial) == Latest(b, Latest(a, initial))
  {
    if b == [] {
      assert a + b == a;
    }
  }

  lemma ApplySlot(b: EmailBuilder, call: Call, slot: Slot)
    ensures SlotOf(Apply(b, call), slot) == Latest(WriteOf(call, slot), SlotOf(b, slot))
  {
  }

  /** The recipients after a chain of calls are the earlier ones, then those added, in order. */
  lemma {:induction false} ChainRecipients(b: EmailBuilder, calls: seq<Call>)
    ensures Chain(b, calls).recipients == b.recipients + Recipients(calls)
    decreases |calls|
  {
    if calls != [] {
      var next := Apply(b, calls[0]);
      ChainRecipients(next, calls[1..]);
    }
  }

  /** After a chain of calls every single-valued part holds the last value written into it. */
  lemma {:induction false} ChainSlots(b: EmailBuilder, calls: seq<Call>)
    ensures forall slot :: SlotOf(Chain(b, calls), slot) == Latest(Writes(calls, slot), SlotOf(b, slot))
    decreases |calls|
  {
    if calls != [] {
      var call, rest := calls[0], calls[1..];
      ChainSlots(Apply(b, call), rest);
      forall slot
        ensures SlotOf(Chain(b, calls), slot) == Latest(Writes(calls, slot), SlotOf(b, slot))
      {
        ApplySlot(b, call, slot);
        LatestAppend(WriteOf(call, slot), Writes(rest, slot), SlotOf(b, slot));
      }
    }
  }

  /** After a chain of calls a body exists exactly when one existed or some call set a body part. */
  lemma {:induction false} ChainBody(b: EmailBuilder, calls: seq<Call>)
    ensures Chain(b, calls).body.Some? <==>
              b.body.Some? || exists i :: 0 <= i < |calls| && calls[i].TouchesBody()
    decreases |calls|
  {
    if calls != [] {
      var call, rest := calls[0], calls[1..];
      ChainBody(Apply(b, call), rest);
      if exists i :: 0 <= i < |rest| && rest[i].TouchesBody() {
        var i :| 0 <= i < |rest| && rest[i].TouchesBody();
        assert calls[i + 1] == rest[i];
      }
      if exists i :: 0 <= i < |calls| && calls[i].TouchesBody() {
        var i :| 0 <= i < |calls| && calls[i].TouchesBody();
        if i > 0 {
          assert rest[i - 1] == calls[i];
        }
      }
    }
  }

  /**
   * Building after any chain of setter calls on a default builder: it fails with a missing `to`
   * exactly when no recipient was added; otherwise `to` joins the recipients in call order, the
   * sender and subject are the last ones set (subject `no subject` if never set), and each body
   * part is the last one written, with no body at all if no body setter was called.
   */
  lemma {:induction false} BuildAfterCalls(calls: seq<Call>)
    ensures var r := Chain(DefaultBuilder, calls).Build();
      && (r.Err? <==> Recipients(calls) == [])
      && (r.Err? ==> r.error == BuildError.MissingField("to"))
      && (r.Ok? ==> r.value.to == Join(Recipients(calls), Comma))
      && (r.Ok? ==> r.value.from == Latest(Writes(calls, SenderSlot), None))
      && (r.Ok? ==> r.value.subject == Latest(Writes(calls, SubjectSlot), None).GetOr(NoSubject))
      && (r.Ok? ==> (r.value.body.Some? <==> exists i :: 0 <= i < |calls| && calls[i].TouchesBody()))
      && (r.Ok? && r.value.body.Some? ==>
            r.value.body.value == EmailBody(Latest(Writes(calls, HtmlSlot), None), Latest(Writes(calls, TextSlot), None)))
  {
    var b := Chain(DefaultBuilder, calls);
    ChainRecipients(DefaultBuilder, calls);
    ChainSlots(DefaultBuilder, calls);
    ChainBody(DefaultBuilder, calls);
    assert b.recipients == [] + Recipients(calls) == Recipients(calls);
    assert SlotOf(b, SenderSlot) == Latest(Writes(calls, SenderSlot), None);
    assert SlotOf(b, SubjectSlot) == Latest(Writes(calls, SubjectSlot), None);
    assert SlotOf(b, HtmlSlot) == Latest(Writes(calls, HtmlSlot), None);
    assert SlotOf(b, TextSlot) == Latest(Writes(calls, TextSlot), None);
  }

  /**
   * Setting the HTML part and then the plain-text part keeps both parts, so both are posted:
   * a later body part does not replace an earlier one of the other kind.
   */
  lemma TextAfterHtmlKeepsBoth(html: string, text: string)
    ensures DefaultBuilder.HtmlBody(html).TextBody(text).body == Some(EmailBody(Some(html), Some(text)))
    ensures DefaultBuilder.HtmlBody(html).Body(EmailBody(None, Some(text))).body == Some(EmailBody(None, Some(text)))
  {
  }

  /** An email with an HTML body is posted as exactly `from`, `to`, `subject` and `html`. */
  lemma SerializedHtmlEmail()
    ensures Email(Some("niclas"), "someoneelse", "Subject", Some(EmailBody(Some("HELLO"), None))).FormFields()
            == [("from", "niclas"), ("to", "someoneelse"), ("subject", "Subject"), ("html", "HELLO")]
  {
  }
}
