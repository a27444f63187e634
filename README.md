# mailgun46 in Dafny

A model of the core of `mailgun46`, a small Rust client for the Mailgun HTTP API. It covers three parts.

- **Composing an email** (`Emails`, from `src/email.rs`):
  - `EmailBuilder` accumulates a sender, recipients, a subject and a two-part body.
  - Its validating `build` turns it into an `Email`.
  - `Email::send` fills in the mailer's default sender.
  - The email is posted as the form fields `from`, `to`, `subject`, `html` and `text`.
- **The mailer** (`Mailgun`, from `src/lib.rs`):
  - construction from a domain and a provider token, directly or from the environment;
  - the three strings it derives: the default sender, the messages URL and the `Authorization` value;
  - the classification of the provider's reply when sending.
- **The error taxonomy** (`Errors`, from `src/error.rs`): `SendError`, `SetupError` and the missing `BuildError`, with their `Display` texts and the conversion from a transport error.

The `Authorization` value is `Basic ` followed by the base 64 encoding of `api:<token>`. Supporting modules write out what it is built from, so that the crate's test vector and the recoverability of the token are proved:
- `Utf8`: the UTF-8 bytes of a Rust `String`.
- `Base64`: base 64 as defined in section 4 of RFC 4648.
- `Strings`: Rust's `join`, the one string operation the crate applies itself (`src/email.rs:80`), and the splitting and prefix/suffix stripping (`Split`, `IndexOf`, `Between`) that undo it and the crate's `format!`s, written for the read-back lemmas only.

The builder's setters take `mut self` and return it. A builder is therefore moved from call to call and never aliased, so it is modelled as a value: each setter is a function returning the updated builder. The `Mailer` is never changed after construction and is a datatype.

A setter-call trace gives the builder an independent specification:
- `Call` is one setter call and `Chain` folds a sequence of calls.
- `Writes` and `Latest` say which value each single-valued part last received.
- `BuildAfterCalls` states what `build` returns after any sequence of calls.

Foreign behaviour is passed in as parameters:
- `Platform` says which URL texts and header values the libraries refuse and whether the HTTP client fails to build.
- `Transport` maps a request to a reply or a transport error.
- The environment is a `map<string, string>`.
- `showStatus` renders a status code.

Where the code is ambiguous or inconsistent, the model follows the code as written:
- **Body setters merge rather than replace.** A later body setter could be expected to replace the whole body. The code instead merges `text_body` and `html_body` into a two-part body, and only `body` replaces it (`src/email.rs:54-71`). `TextAfterHtmlKeepsBoth` states the merging behaviour.
- **`BuildError` is not defined.** `src/email.rs:1` and `src/email.rs:75` use it, and `src/lib.rs:24` re-exports it, but `src/error.rs` does not define it. It is modelled with one variant, `MissingField(field)`.
- **Two shapes of `Non200Reply`.** `src/error.rs:6` declares `SendError::Non200Reply` with only a status, while `src/lib.rs:108-111` builds it with a status and a body. The model carries both, and `Display` shows only the status, as `src/error.rs:15-17` does.
- **The `serialize_email` test uses a variant that does not exist.** It builds `EmailBody::Html(..)` (`src/lib.rs:161`), but `EmailBody` is a struct with two optional parts. The model uses the struct with only `html` set.

## Model

| member | source | states |
|---|---|---|
| Emails.EmailBuilder.From | src/email.rs:39-42 | the sender becomes the given one, replacing any earlier one; recipients, subject and body are unchanged |
| Emails.EmailBuilder.To | src/email.rs:44-47 | the recipient is appended after those added before; every other part is unchanged |
| Emails.EmailBuilder.Subject | src/email.rs:49-52 | the subject becomes the given one, replacing any earlier one; every other part is unchanged |
| Emails.EmailBuilder.Body | src/email.rs:54-57 | the whole body is replaced by the given one; every other part is unchanged |
| Emails.EmailBuilder.TextBody | src/email.rs:59-64 | a body exists afterwards, its text part is the given text, and its HTML part is the earlier one (none if there was no body); every other part is unchanged |
| Emails.EmailBuilder.HtmlBody | src/email.rs:66-71 | a body exists afterwards, its HTML part is the given HTML, and its text part is the earlier one (none if there was no body); every other part is unchanged |
| Emails.EmailBuilder.Build | src/email.rs:73-84 | fails exactly when no recipient was added, and then with `MissingField("to")`; otherwise `to` is the recipients joined by `,`, the subject is the one set or `no subject`, and the sender and body are carried over unchanged |
| Emails.BuiltRecipientsSplitBack | src/email.rs:80 | when no recipient contains a comma, splitting the built `to` on `,` gives back the recipients in the order added |
| Emails.ChainRecipients | src/email.rs:44-47 | after any sequence of setter calls, the recipients are the earlier ones followed by those added, in call order |
| Emails.ChainSlots | src/email.rs:39-71 | after any sequence of setter calls, the sender, the subject and each body part hold the last value written into them (`body` writes both parts), or their earlier value if none was written |
| Emails.ChainBody | src/email.rs:54-71 | after any sequence of setter calls, a body exists exactly when one existed before or some call set a body or a body part |
| Emails.BuildAfterCalls | src/email.rs:73-84 | building after any sequence of setter calls on a default builder fails with `MissingField("to")` exactly when no `to` call was made; otherwise `to` joins the added recipients in call order, the sender is the last one set (none if never set), the subject is the last one set or `no subject`, and the body exists exactly when a body setter was called and holds the last value written into each part |
| Emails.TextAfterHtmlKeepsBoth | src/email.rs:59-71 | `html_body` then `text_body` keeps both parts, while a later `body` replaces both |
| Wrappers.Option.GetOr | src/email.rs:81 | `unwrap_or`: the value if there is one, else the default |
| Emails.Email.WithDefaultFrom | src/email.rs:15-18 | the sender is the email's own if set, else the mailer's; an email that has a sender is returned unchanged; nothing but the sender ever changes |
| Emails.Email.FormFields | src/email.rs:3-12 | the posted fields have distinct names drawn from `from`, `to`, `subject`, `html` and `text`; `from`, `html` and `text` appear exactly when present and carry their values; `to` and `subject` always appear with theirs |
| Emails.FormLookups | src/email.rs:3-12 | each of the five field names looks up exactly the value the email holds for it, or nothing when it is absent |
| Emails.FormKeys | src/email.rs:3-12 | the flattened fields never repeat a name and use only the five field names |
| Emails.SerializedHtmlEmail | src/lib.rs:156-169 | an email from `niclas` to `someoneelse` with subject `Subject` and only the HTML part `HELLO` is posted as exactly those four fields, in that order |
| Errors.FromTransport | src/error.rs:24-28 | every transport error becomes `Http` carrying the error's text |
| Errors.SendErrorDisplayReadsBack | src/error.rs:10-20 | the `Display` texts of `Http(m)` and `MissingField(f)` are built from their fixed prefixes and a closing backtick, so the error can be read back from its text |
| Errors.SendError.Display | src/error.rs:10-20 | the texts of `Http`, `MissingField` and `Non200Reply` (``SendingError http `m` ``, ``Missing field `f` ``, ``Got non 200 reply from mailgun: `s` ``) start with different characters, `S`, `M` and `G`, so the text tells the variant, and each ends with a backtick; the `Non200Reply` text gives back the status's rendering between its prefix and the closing backtick |
| Errors.SetupError.Display | src/error.rs:37-45 | the texts of `EnvVarMissing`, `InvalidVar` and `Build` (``Missing env variable `v` ``, ``Invalid value for `v`: m``, `Creating Http Client: m`) start with different characters, `M`, `I` and `C`, and a missing variable's name is closed by a backtick |
| Errors.SetupErrorDisplayReadsBack | src/error.rs:37-45 | the `Display` texts of `EnvVarMissing`, `InvalidVar` and `Build` are built from their fixed prefixes (and the `` `: `` infix), so the error can be read back from its text when the variable name holds no backtick |
| Mailgun.NewWithMgUrl | src/lib.rs:65-94 | the checks fail in order: an unparsable messages URL gives `InvalidVar("domain", msg)`, then a refused Authorization value gives `Build(msg)`, then a client that cannot be built gives `Build(msg)`; construction succeeds exactly when none fails, with sender `noreply@<domain>`, URL `<mg_url>/v3/<domain>/messages` and Authorization `Basic <base64("api:" + token)>` |
| Mailgun.New | src/lib.rs:61-63 | is `new_with_mg_url` with base `https://api.eu.mailgun.net`, giving the URL `https://api.eu.mailgun.net/v3/<domain>/messages` |
| Mailgun.FromEnv | src/lib.rs:48-55 | a missing `MAILER46_DOMAIN` gives `EnvVarMissing("MAILER46_DOMAIN")` whatever the token; with the domain present, a missing `MAILER46_TOKEN` gives `EnvVarMissing("MAILER46_TOKEN")`; with both present it is `new` on their values |
| Mailgun.SenderFor | src/lib.rs:70 | the default sender `noreply@<domain>`, from which the domain is read back as the text after `noreply@` |
| Mailgun.MessagesUrlFor | src/lib.rs:72 | the messages URL `<mg_url>/v3/<domain>/messages`, from which the domain is read back as the text between `<mg_url>/v3/` and `/messages` |
| Mailgun.CredentialsReadBack | src/lib.rs:77-78 | `AuthorizationFor`, the value `Basic <base64(utf8("api:" + token))>`, gives back the token when the text after `Basic ` is decoded from base 64, then from UTF-8, and stripped of `api:` |
| Mailgun.MailerReadsBack | src/lib.rs:70-78 | a built mailer determines its inputs: the domain can be read back from the sender and from the messages URL, and the token from the Authorization value, through base 64 and UTF-8 |
| Mailgun.AuthorizationIsVisibleAscii | src/lib.rs:77-79 | every character of the Authorization value is a space or visible ASCII |
| Mailgun.AuthorizationNeverRefused | src/lib.rs:76-87 | when the header check accepts every visible-ASCII value, as `HeaderValue::from_str` does, construction never fails on the Authorization value: it succeeds exactly when the URL parses and the client builds, and a `Build` error is the client's |
| Mailgun.TomatotokenAuthorization | src/lib.rs:135-137 | the Authorization value for token `tomatotoken` is `Basic YXBpOnRvbWF0b3Rva2Vu` |
| Mailgun.Mailer.RequestFor | src/lib.rs:97-100 | the request goes to the mailer's messages URL, with its Authorization value, and carries the email's form fields |
| Mailgun.Mailer.Send | src/lib.rs:96-117 | a transport error is `Http`; a status other than 200 is `Non200Reply` with that status and the body text (or `Http` when the body cannot be read), never a message id; a 200 reply yields `MessageId` of the decoded `id` (or `Http` when it does not decode) |
| Mailgun.Posted | src/email.rs:15-20 | the posted request goes to the mailer's URL with its Authorization value; its `from` field is the email's sender if set, else the mailer's; `to`, `subject`, `html` and `text` are the email's |
| Mailgun.SendEmail | src/email.rs:15-21 | sending succeeds exactly when the reply to the posted request is 200 and decodes, and then returns its id; a non-200 reply with a readable body is `Non200Reply` with that status and body |
| Mailgun.SendATestEmail | src/lib.rs:172-201 | against a server that answers 200 with an `id` to requests at `/v3/fakedomain/messages` carrying `Basic YXBpOnRvbWF0b3Rva2Vu`, the mailer for `fakedomain` and `tomatotoken` is built, the test email builds, and sending it returns that id |
| Utf8.EncodeChar | src/lib.rs:77 | a character takes one to four bytes, and exactly one when it is ASCII |
| Utf8.DecodeFirstEncodeChar | src/lib.rs:77 | the first character of an encoding, whatever follows it, decodes back with its byte count |
| Utf8.DecodeEncode | src/lib.rs:77 | decoding the UTF-8 bytes `Utf8.Encode` gives for any text (what `base64::encode` reads from the `String`) gives back the text |
| Utf8.EncodeDecode | src/lib.rs:77 | any bytes that decode are exactly the encoding of the text they decode to, so `Utf8.Decode` accepts only the shortest forms |
| Utf8.OverlongRefused | src/lib.rs:77 | the overlong two-byte form `C0 80` of U+0000 is refused |
| Utf8.EncodeAscii | src/lib.rs:77 | ASCII text takes one byte per character, each byte being the character's code |
| Utf8.EncodeConcat | src/lib.rs:77 | the bytes of a concatenation are the concatenation of the bytes |
| Base64.ValueOf | src/lib.rs:77 | a character has a six-bit value exactly when it is in the alphabet of section 4 of RFC 4648, and that value maps back to the character |
| Base64.DecodeEncode | src/lib.rs:77 | decoding the base 64 encoding `Base64.Encode` gives for any bytes (the `base64::encode` call, standard alphabet with padding) gives back the bytes |
| Base64.EncodedLength | src/lib.rs:77 | every started group of three bytes takes four characters |
| Base64.EncodedChars | src/lib.rs:77 | an encoding uses only the 64 alphabet characters and `=` |
| Base64.EncodeAppend | src/lib.rs:77 | whole groups of three bytes encode independently of what follows them |
| Base64.EncodeTriple | src/lib.rs:77 | three bytes encode as the characters of their four six-bit values |
| Strings.Join | src/email.rs:80 | the joined text (`join(",")`) contains the separator exactly when there are at least two parts or some part contains it |
| Strings.JoinAppend | src/email.rs:80 | appending a recipient appends a comma and the recipient to the joined text |
| Strings.SplitJoin | src/email.rs:80 | splitting the joined text gives back the parts when none contains the separator |
| Strings.JoinSplit | src/email.rs:80 | joining the pieces of any text gives back the text |

## Left out

- The HTTP exchange (`src/lib.rs:96-102`): the request, its `.await` and the wiremock server of the tests are not modelled. A `Transport` function from request to reply (or error text) stands in for them, and `SendATestEmail` states the mock server as a requirement on it.
- Form encoding (`src/lib.rs:100`): the posted form is the ordered list of field names and values; serde's percent-encoding of that list is not modelled.
- JSON decoding of the reply (`src/lib.rs:114`, `src/lib.rs:120-123`): the decoded `MailReply`, or the decoding error text, is part of the reply given as input.
- `String::from_utf8_lossy` (`src/lib.rs:106-107`): the reply's body text, or the read error, is given as input, already converted.
- The environment (`src/lib.rs:49-52`): a map stands in for it. A variable that is set but not valid Unicode makes `env::var` fail just like a missing one, so it is modelled as absent from the map.
- URL parsing (`src/lib.rs:72-74`): whether the messages URL parses, and the error text, come from `Platform.urlError`. The mailer keeps the URL as text, so any normalisation `reqwest::Url` applies is not modelled.
- Header and client construction (`src/lib.rs:76-87`): whether `HeaderValue::from_str` refuses the value and whether the client fails to build come from `Platform.headerError` and `Platform.clientError`. `AcceptsVisibleAscii` states what the `http` crate documents of `HeaderValue::from_str` (visible ASCII and spaces are accepted); `AuthorizationNeverRefused` assumes it rather than deriving it. The `HeaderMap`, the `USER_AGENT` constant (`src/lib.rs:27`) and the client object itself are not modelled.
- `StatusCode` display (`src/error.rs:16`): the rendering of a status code is the parameter `showStatus`. The `Non200Reply` text gives back that rendering, not the status itself, so `ParseSendError` does not read `Non200Reply` back.
- `SendError::MissingField` (`src/error.rs:7`) is never constructed by the crate. Only its `Display` text is modelled.
- The derived `Debug`, `Clone`, `PartialEq` and `Default` implementations are not modelled beyond `EmailBuilder::default()` and `EmailBody::default()`, which appear as `DefaultBuilder` and `EmptyBody`.
- The `serialize_email` test (`src/lib.rs:156-169`) serialises to JSON. `SerializedHtmlEmail` states the same field names, values and order for the form fields instead.
