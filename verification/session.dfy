/** `initialize`: what the connector keeps for the session. */
module Session {
  import opened Wrappers
  import opened Json
  import Text

  /** The read-only state every handler uses: the configured login address and
      the directory domain derived from it. */
  datatype Session = Session(loginEmail: string, domain: string)

  datatype InitFailure =
    | KeyJsonInvalid(detail: string)   // "Unable to load the key json"
    | LoginEmailInvalid                // "Asset config 'login_email' failed validation"

  /** `_, _, domain = login_email.partition('@')`. */
  function DomainOf(login: string): (d: string)
    ensures '@' !in login ==> d == ""
    ensures '@' in login ==> exists user :: '@' !in user && login == user + "@" + d
  {
    var d := Text.AfterFirst(login, '@');
    if '@' in login then
      var user := login[..|login| - |d| - 1];
      assert login == user + "@" + d;
      d
    else d
  }

  /** The domain of `user@domain` is `domain`, whatever `domain` holds. */
  lemma DomainOfAddress(user: string, domain: string)
    requires '@' !in user
    ensures DomainOf(user + "@" + domain) == domain
  {
    Text.AfterFirstOfJoined(user, '@', domain);
  }

  /** `initialize`: the key must parse as JSON (`keyJson`, the outcome of
      `json.loads`) and the login must pass the platform's e-mail check
      (`isEmail`, an external predicate); the domain is then split off. */
  function Initialize(keyJson: Result<Value, string>, loginEmail: string, isEmail: bool): (r: Result<Session, InitFailure>)
    ensures r.Success? <==> keyJson.Success? && isEmail
    ensures keyJson.Failure? ==> r == Failure(KeyJsonInvalid(keyJson.error))
    ensures keyJson.Success? && !isEmail ==> r == Failure(LoginEmailInvalid)
    ensures r.Success? ==> r.value.loginEmail == loginEmail && r.value.domain == DomainOf(loginEmail)
  {
    if keyJson.Failure? then Failure(KeyJsonInvalid(keyJson.error))
    else if !isEmail then Failure(LoginEmailInvalid)
    else Success(Session(loginEmail, DomainOf(loginEmail)))
  }
}
