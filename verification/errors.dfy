/** Turning an exception into the one-line "Error Code: ... Error Message: ..."
    text the connector attaches to every failure, and the failures themselves. */
module Errors {
  import opened Wrappers
  import opened Json

  /** Sentinel code used when the exception does not carry one. The texts of both
      sentinels live in the connector's constants file, which is not part of this
      model; nothing proved here depends on the wording. */
  const ErrCodeUnavailable: string := "Error code unavailable"

  /** Sentinel message used when the exception carries no arguments. */
  const ErrMessageUnavailable: string :=
    "Error message unavailable. Please check the asset configuration and|or action parameters"

  /** An exception reduced to what the normaliser looks at: its positional
      arguments, and what `json.loads` makes of the second one (`None` when the
      parse raises, or when there is no second argument). */
  datatype Exception = Exception(args: seq<Value>, parsedMessage: Option<Value>)

  /** The value a JSON error document `{"error": {field: v}}` supplies for
      `field`, when `v` is truthy. Nothing is overridden otherwise: a document
      without a truthy `error` skips the lookup, and a document or `error` value
      that is not an object makes the connector's `.get` raise, which it swallows. */
  function PayloadOverride(doc: Option<Value>, field: string): (r: Option<Value>)
    ensures r.Some? ==> Truthy(r.value)
  {
    match doc
    case Some(Obj(m)) =>
      if "error" in m && m["error"].Obj? && field in m["error"].fields
         && Truthy(m["error"].fields[field])
      then Some(m["error"].fields[field])
      else None
    case _ => None
  }

  /** The (code, message) pair the normaliser settles on. */
  function Describe(e: Exception): (r: (Value, Value))
    ensures |e.args| <= 1 ==> r.0 == Str(ErrCodeUnavailable)
    ensures |e.args| == 0 ==> r.1 == Str(ErrMessageUnavailable)
    ensures |e.args| == 1 ==> r.1 == e.args[0]
    ensures |e.args| >= 2 ==>
              r.0 == (match PayloadOverride(e.parsedMessage, "code")
                      case Some(c) => c
                      case None => e.args[0])
    ensures |e.args| >= 2 ==>
              r.1 == (match PayloadOverride(e.parsedMessage, "message")
                      case Some(m) => m
                      case None => e.args[1])
  {
    if |e.args| > 1 then
      var code := PayloadOverride(e.parsedMessage, "code");
      var msg := PayloadOverride(e.parsedMessage, "message");
      (if code.Some? then code.value else e.args[0],
       if msg.Some? then msg.value else e.args[1])
    else if |e.args| == 1 then
      (Str(ErrCodeUnavailable), e.args[0])
    else
      (Str(ErrCodeUnavailable), Str(ErrMessageUnavailable))
  }

  const CodePrefix: string := "Error Code: "
  const MessageInfix: string := ". Error Message: "

  /** The rendered text: the code after a fixed prefix, the message after a fixed
      infix, nothing else. */
  function ErrorMessage(e: Exception): (s: string)
    ensures |s| == |CodePrefix| + |Show(Describe(e).0)| + |MessageInfix| + |Show(Describe(e).1)|
    ensures s[..|CodePrefix|] == CodePrefix
    ensures s[|CodePrefix|..|CodePrefix| + |Show(Describe(e).0)|] == Show(Describe(e).0)
    ensures s[|s| - |Show(Describe(e).1)|..] == Show(Describe(e).1)
    ensures s[|s| - |Show(Describe(e).1)| - |MessageInfix|..|s| - |Show(Describe(e).1)|] == MessageInfix
  {
    var (code, msg) := Describe(e);
    CodePrefix + Show(code) + MessageInfix + Show(msg)
  }

  /** Only the first two arguments matter: anything after them is ignored. */
  lemma ExtraArgumentsIgnored(e: Exception, extra: seq<Value>)
    requires |e.args| >= 2
    ensures ErrorMessage(Exception(e.args + extra, e.parsedMessage)) == ErrorMessage(e)
  {
    var e' := Exception(e.args + extra, e.parsedMessage);
    assert e'.args[0] == e.args[0] && e'.args[1] == e.args[1];
  }

  /** The JSON payload is consulted only when there are at least two arguments. */
  lemma PayloadIgnoredBelowTwoArguments(e: Exception, doc: Option<Value>)
    requires |e.args| < 2
    ensures ErrorMessage(Exception(e.args, doc)) == ErrorMessage(e)
  {
  }

  /** A message that is not a JSON error document leaves the two raw arguments
      in charge. */
  lemma RawArgumentsWithoutPayload(e: Exception)
    requires |e.args| >= 2
    requires e.parsedMessage.None? || !e.parsedMessage.value.Obj?
    ensures Describe(e) == (e.args[0], e.args[1])
  {
  }

  /** Every way a handler can fail, with the text the connector attaches. */
  datatype ActionFailure =
    | ServiceKeyFailure(detail: string)          // credentials from the key failed
    | CredentialsFailure(detail: string)         // impersonation of the subject failed
    | ServiceBuildFailure(message: string)       // the API client could not be built
    | InvalidInteger(constraint: string, param: string)
    | InvalidIdParameter                         // "Please provide valid value for 'id' action parameter"
    | EmailCheckFailed(message: string)          // "Error checking email. ID: <id> Reason: <text>."
    | MessagesFetchFailed(detail: string)        // "Failed to get messages"
    | BatchDeleteFailed(detail: string)          // "Failed to delete messages"
    | UsersFetchFailed(detail: string)           // the users-fetch failure constant
}
