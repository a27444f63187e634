/** The crate's error taxonomy and the text each error displays as. */
module Errors {
  import opened Wrappers
  import opened Strings

  /** An HTTP status code as `reqwest::StatusCode` holds it: a number from 100 to 999. */
  type StatusCode = n: int | 100 <= n <= 999 witness 200

  /** `200 OK`. */
  const OK: StatusCode := 200

  /** Failure to compose an email: a required field was never given. */
  datatype BuildError = MissingField(field: string)

  /** Failure to send an email. */
  datatype SendError =
    | Http(message: string)
    | Non200Reply(status: StatusCode, body: string)
    | MissingField(field: string)
  {
    /**
     * The `Display` text; `showStatus` is how the status code displays. The three texts start
     * differently, so the text tells the variant, and each ends with a backtick. A non-200
     * reply's text carries the status's rendering between its prefix and the backtick.
     */
    function Display(showStatus: StatusCode -> string): (r: string)
      ensures |r| > 0 && r[0] == (if Http? then 'S' else if MissingField? then 'M' else 'G')
      ensures r[|r| - 1] == '`'
      ensures Non200Reply? ==> Between(r, Non200Prefix, "`") == Some(showStatus(status))
    {
      match this
      case Http(message) => HttpPrefix + message + "`"
      case MissingField(field) => MissingFieldPrefix + field + "`"
      case Non200Reply(status, _) =>
        BetweenAffixes(Non200Prefix, showStatus(status), "`");
        Non200Prefix + showStatus(status) + "`"
    }
  }

  const HttpPrefix := "SendingError http `"
  const MissingFieldPrefix := "Missing field `"
  const Non200Prefix := "Got non 200 reply from mailgun: `"

  /** `From<reqwest::Error>`: every transport error becomes `Http` with the error's text. */
  function FromTransport(message: string): (e: SendError)
    ensures e.Http? && e.message == message
  {
    Http(message)
  }

  /** Failure to set up a mailer. */
  datatype SetupError =
    | EnvVarMissing(name: string)
    | InvalidVar(name: string, message: string)
    | Build(message: string)
  {
    /**
     * The `Display` text. The three texts start differently, so the text tells the variant, and
     * a missing variable's name is closed by a backtick.
     */
    function Display(): (r: string)
      ensures |r| > 0 && r[0] == (if EnvVarMissing? then 'M' else if InvalidVar? then 'I' else 'C')
      ensures EnvVarMissing? ==> r[|r| - 1] == '`'
    {
      match this
      case EnvVarMissing(name) => EnvVarMissingPrefix + name + "`"
      case InvalidVar(name, message) => InvalidVarPrefix + name + InvalidVarInfix + message
      case Build(message) => BuildPrefix + message
    }
  }

  const EnvVarMissingPrefix := "Missing env variable `"
  const InvalidVarPrefix := "Invalid value for `"
  const InvalidVarInfix := "`: "
  const BuildPrefix := "Creating Http Client: "

  /** A displayed `Http` or `MissingField` error read back; `Non200Reply` does not display its body. */
  function ParseSendError(s: string): Option<SendError> {
    match Between(s, HttpPrefix, "`")
    case Some(message) => Some(Http(message))
    case None =>
      match Between(s, MissingFieldPrefix, "`")
      case Some(field) => Some(SendError.MissingField(field))
      case None => None
  }

  /** Every `Http` and `MissingField` error can be told back from its text. */
  lemma SendErrorDisplayReadsBack(e: SendError, showStatus: StatusCode -> string)
    requires !e.Non200Reply?
    ensures ParseSendError(e.Display(showStatus)) == Some(e)
  {
    match e
    case Http(message) =>
      BetweenAffixes(HttpPrefix, message, "`");
    case MissingField(field) =>
      var s := e.Display(showStatus);
      assert s[0] == 'M';
      BetweenAffixes(MissingFieldPrefix, field, "`");
  }

  /** A displayed `SetupError` read back, when the variable name holds no backtick. */
  function ParseSetupError(s: string): Option<SetupError> {
    if |s| == 0 then None
    else if s[0] == 'M' then
      match Between(s, EnvVarMissingPrefix, "`")
      case Some(name) => Some(EnvVarMissing(name))
      case None => None
    else if s[0] == 'I' then
      match Between(s, InvalidVarPrefix, "")
      case None => None
      case Some(rest) =>
        match IndexOf(rest, '`')
        case None => None
        case Some(i) =>
          if i + |InvalidVarInfix| <= |rest| && rest[i..i + |InvalidVarInfix|] == InvalidVarInfix then
            Some(InvalidVar(rest[..i], rest[i + |InvalidVarInfix|..]))
          else None
    else if s[0] == 'C' then
      match Between(s, BuildPrefix, "")
      case Some(message) => Some(Build(message))
      case None => None
    else None
  }

  /** Every `SetupError` whose variable name holds no backtick can be told back from its text. */
  lemma SetupErrorDisplayReadsBack(e: SetupError)
    requires e.InvalidVar? ==> '`' !in e.name
    ensures ParseSetupError(e.Display()) == Some(e)
  {
    match e
    case EnvVarMissing(name) =>
      BetweenAffixes(EnvVarMissingPrefix, name, "`");
    case InvalidVar(name, message) =>
      var rest := name + InvalidVarInfix + message;
      assert e.Display() == InvalidVarPrefix + rest + "";
      BetweenAffixes(InvalidVarPrefix, rest, "");
      assert rest == name + ['`'] + (": " + message);
      IndexOfAfter(name, '`', ": " + message);
      assert rest[..|name|] == name;
      assert rest[|name|..|name| + |InvalidVarInfix|] == InvalidVarInfix;
      assert rest[|name| + |InvalidVarInfix|..] == message;
    case Build(message) =>
      assert e.Display() == BuildPrefix + message + "";
      BetweenAffixes(BuildPrefix, message, "");
  }
}
