/**
 * The sign-in page: check the required fields, choose between the register
 * and login calls, then show the reply's message and, after a successful
 * login, remember the user in the session store.
 */
module Auth {
  import opened Wrappers
  import opened Session

  /** Which form is shown: `isRegister` false or true. */
  datatype Mode = Login | Register

  /** The message shown when a required field is empty. */
  const FillFieldsMessage := "Please fill in all required fields."
  /** The message shown for a failed call that carries no `detail`. */
  const FallbackMessage := "An error occurred."

  /** The POST the page sends: a path on the backend and the JSON body's fields. */
  datatype AuthRequest = AuthRequest(path: string, body: map<string, string>)

  /** The parts of the backend's reply the page reads; JSON fields may be absent. */
  datatype AuthReply = AuthReply(
    ok: bool,
    message: Option<string>,
    detail: Option<string>,
    name: Option<string>,
    email: Option<string>)

  /**
   * The required-field check: email and password always, the name only when
   * registering.
   */
  predicate MissingField(mode: Mode, email: string, name: string, password: string) {
    email == "" || password == "" || (mode == Register && name == "")
  }

  /** In login mode the name field plays no part in the check. */
  lemma LoginIgnoresName(email: string, name1: string, name2: string, password: string)
    ensures MissingField(Login, email, name1, password) == MissingField(Login, email, name2, password)
    ensures MissingField(Login, email, name1, password) <==> email == "" || password == ""
  {
  }

  /**
   * The call for the mode: registering posts email, name and password to
   * `/api/register`; logging in posts only email and password to `/api/login`.
   */
  function RequestFor(mode: Mode, email: string, name: string, password: string): (r: AuthRequest)
    ensures mode == Register ==> r.path == "/api/register" && r.body.Keys == {"email", "name", "password"}
    ensures mode == Login ==> r.path == "/api/login" && r.body.Keys == {"email", "password"}
    ensures "email" in r.body && r.body["email"] == email
    ensures "password" in r.body && r.body["password"] == password
    ensures "name" in r.body ==> r.body["name"] == name
  {
    match mode
    case Register => AuthRequest("/api/register", map["email" := email, "name" := name, "password" := password])
    case Login => AuthRequest("/api/login", map["email" := email, "password" := password])
  }

  /** The message shown for a reply: its `message` when ok, else its `detail` or the fallback. */
  function ReplyMessage(reply: AuthReply): (m: Option<string>)
    ensures reply.ok ==> m == reply.message
    ensures !reply.ok && Truthy(reply.detail) ==> m == reply.detail
    ensures !reply.ok && !Truthy(reply.detail) ==> m == Some(FallbackMessage)
  {
    if reply.ok then reply.message
    else if Truthy(reply.detail) then reply.detail
    else Some(FallbackMessage)
  }

  /**
   * `handleAuth`. `reply` is the backend's answer to the request, if one is
   * sent. Returns the request sent (none when a field is missing), the message
   * now shown, and whether the page moves on to the home page.
   */
  method HandleAuth(store: SessionStore, mode: Mode, email: string, name: string, password: string, reply: AuthReply)
    returns (sent: Option<AuthRequest>, message: Option<string>, goHome: bool)
    modifies store
    ensures sent.None? <==> MissingField(mode, email, name, password)
    ensures sent.Some? ==> sent.value == RequestFor(mode, email, name, password)
    ensures sent.None? ==> message == Some(FillFieldsMessage)
    ensures sent.Some? ==> message == ReplyMessage(reply)
    ensures goHome <==> sent.Some? && reply.ok && mode == Login
    ensures goHome ==> store.items == old(store.items)[UserNameKey := StoredText(reply.name)][EmailKey := StoredText(reply.email)]
    ensures !goHome ==> store.items == old(store.items)
  {
    if MissingField(mode, email, name, password) {
      return None, Some(FillFieldsMessage), false;
    }
    sent := Some(RequestFor(mode, email, name, password));
    message := ReplyMessage(reply);
    goHome := false;
    if reply.ok && mode == Login {
      store.SetItem(UserNameKey, StoredText(reply.name));
      store.SetItem(EmailKey, StoredText(reply.email));
      goHome := true;
    }
  }
}
