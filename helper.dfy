/** The response envelope and the validators every route shares. */
module Helper {
  import opened Common
  import opened Text

  /** The HTTP statuses the handlers answer with. */
  datatype Status = Ok | Created | BadRequest | Unauthorized | Forbidden | NotFound | Conflict | ServerError {
    function Code(): nat {
      match this
      case Ok => 200
      case Created => 201
      case BadRequest => 400
      case Unauthorized => 401
      case Forbidden => 403
      case NotFound => 404
      case Conflict => 409
      case ServerError => 500
    }
  }

  /** The JSON body of every reply. */
  datatype Envelope<T> = Envelope(message: string, success: bool, data: Option<T>)

  /** A status together with the body sent under it. */
  datatype Reply<T> = Reply(status: Status, body: Envelope<T>)

  /** `createResponse(message, success, data = null)`: the body carries
      exactly the message, the flag and the data, which is null unless
      given. */
  function CreateResponse<T>(message: string, success: bool, data: Option<T> := None): (body: Envelope<T>)
    ensures body.message == message && body.success == success && body.data == data
  {
    Envelope(message, success, data)
  }

  /** `res.status(status).json(createResponse(message, success, data))`. */
  function Respond<T>(status: Status, message: string, success: bool, data: Option<T> := None): (r: Reply<T>)
    ensures r.status == status && r.body.message == message && r.body.success == success && r.body.data == data
  {
    Reply(status, CreateResponse(message, success, data))
  }

  /** The reply sent for a rejected request: the status and message, no data. */
  function Fail<T>(status: Status, message: string): (r: Reply<T>)
    ensures r.status == status && r.body.message == message
    ensures !r.body.success && r.body.data.None?
  {
    Respond(status, message, false)
  }

  /** A rejection's message is what a page shows from `err.response.data.message`,
      unless it is empty. */
  lemma FailMessageShown<T>(status: Status, message: string, fallback: string)
    ensures message != "" ==> MessageOr(Some(Fail<T>(status, message).body.message), fallback) == message
    ensures message == "" ==> MessageOr(Some(Fail<T>(status, message).body.message), fallback) == fallback
  {
  }

  // ---------------------------------------------------------------- email

  /** A non-empty run of characters the class `[^\s@]` admits. */
  predicate PlainRun(s: string) {
    |s| > 0 && forall i :: 0 <= i < |s| ==> !IsSpace(s[i]) && s[i] != '@'
  }

  /** The strings the regular expression `^[^\s@]+@[^\s@]+\.[^\s@]+$`
      matches, described by where its `@` and its `.` fall. */
  ghost predicate MatchesEmailPattern(s: string) {
    exists at, dot ::
      && 0 <= at < dot < |s|
      && s[at] == '@' && s[dot] == '.'
      && PlainRun(s[..at]) && PlainRun(s[at + 1..dot]) && PlainRun(s[dot + 1..])
  }

  /** `isValidEmail`: no white space, exactly one `@` with something before
      it, and a `.` after it that is neither the first nor the last character
      of the domain. */
  function IsValidEmail(email: string): bool {
    && (forall i :: 0 <= i < |email| ==> !IsSpace(email[i]))
    && '@' in email
    && (var at := IndexOf(email, '@');
        && 0 < at
        && '@' !in email[at + 1..]
        && exists dot :: at + 1 < dot < |email| - 1 && email[dot] == '.')
  }

  /** `isValidEmail` accepts exactly the strings the regular expression matches. */
  lemma IsValidEmailMatchesPattern(email: string)
    ensures IsValidEmail(email) <==> MatchesEmailPattern(email)
  {
    if IsValidEmail(email) {
      ValidEmailMatches(email);
    }
    if MatchesEmailPattern(email) {
      var at, dot :| && 0 <= at < dot < |email|
                     && email[at] == '@' && email[dot] == '.'
                     && PlainRun(email[..at]) && PlainRun(email[at + 1..dot]) && PlainRun(email[dot + 1..]);
      MatchIsValidEmail(email, at, dot);
    }
  }

  /** The `@` and `.` that `isValidEmail` finds split the string as the pattern demands. */
  lemma ValidEmailMatches(email: string)
    requires IsValidEmail(email)
    ensures MatchesEmailPattern(email)
  {
    var at := IndexOf(email, '@');
    var dot :| at + 1 < dot < |email| - 1 && email[dot] == '.';
    var local, domain, top := email[..at], email[at + 1..dot], email[dot + 1..];
    forall i | 0 <= i < |local| ensures !IsSpace(local[i]) && local[i] != '@' {
      assert local[i] == email[i];
    }
    var after := email[at + 1..];
    assert forall i :: 0 <= i < |after| ==> after[i] != '@';
    forall i | 0 <= i < |domain| ensures !IsSpace(domain[i]) && domain[i] != '@' {
      assert domain[i] == after[i] == email[at + 1 + i];
    }
    forall i | 0 <= i < |top| ensures !IsSpace(top[i]) && top[i] != '@' {
      assert top[i] == after[dot - at + i] == email[dot + 1 + i];
    }
    assert PlainRun(local) && PlainRun(domain) && PlainRun(top);
  }

  /** A string split by the pattern at `at` and `dot` passes `isValidEmail`. */
  lemma MatchIsValidEmail(email: string, at: nat, dot: nat)
    requires 0 <= at < dot < |email|
    requires email[at] == '@' && email[dot] == '.'
    requires PlainRun(email[..at]) && PlainRun(email[at + 1..dot]) && PlainRun(email[dot + 1..])
    ensures IsValidEmail(email)
  {
    var local, domain, top := email[..at], email[at + 1..dot], email[dot + 1..];
    forall i | 0 <= i < |email|
      ensures !IsSpace(email[i])
      ensures i != at ==> email[i] != '@'
    {
      if i < at {
        assert local[i] == email[i];
      } else if at < i < dot {
        assert domain[i - at - 1] == email[i];
      } else if dot < i {
        assert top[i - dot - 1] == email[i];
      }
    }
    assert '@' !in local by {
      assert forall i :: 0 <= i < |local| ==> local[i] == email[i];
    }
    IndexOfIs(email, '@', at);
    var after := email[at + 1..];
    assert '@' !in after by {
      assert forall i :: 0 <= i < |after| ==> after[i] == email[at + 1 + i];
    }
  }

  // ------------------------------------------------------------- password

  /** `validatePassword`: an error message for a password shorter than eight
      UTF-16 code units, nothing otherwise. */
  function ValidatePassword(password: string): (error: Option<string>)
    ensures error.None? <==> JsLength(password) >= 8
    ensures |password| >= 8 ==> error.None?
    ensures error.Some? ==> |password| < 8 && error.value == "Password must be at least 8 characters long"
  {
    if JsLength(password) < 8 then Some("Password must be at least 8 characters long") else None
  }

  // ------------------------------------------------------------ sanitizing

  /** `sanitizeUser`: null stays null; otherwise the record without its
      `password` member. */
  function SanitizeUser<V>(user: Option<map<string, V>>): (r: Option<map<string, V>>)
    ensures user.None? <==> r.None?
    ensures r.Some? ==> r.value.Keys == user.value.Keys - {"password"}
    ensures r.Some? ==> forall k :: k in r.value ==> r.value[k] == user.value[k]
  {
    match user
    case None => None
    case Some(u) => Some(u - {"password"})
  }

  /** What `sanitizeUser` returns does not depend on the password it drops,
      and sanitizing twice is sanitizing once. */
  lemma SanitizeUserForgetsPassword<V>(u: map<string, V>, p: V)
    ensures SanitizeUser(Some(u["password" := p])) == SanitizeUser(Some(u))
    ensures SanitizeUser(SanitizeUser(Some(u))) == SanitizeUser(Some(u))
  {
    var a := SanitizeUser(Some(u["password" := p])).value;
    var b := SanitizeUser(Some(u)).value;
    assert a.Keys == b.Keys;
    assert forall k :: k in a ==> a[k] == b[k];
    assert a == b;
    var c := SanitizeUser(Some(b)).value;
    assert c.Keys == b.Keys;
    assert c == b;
  }
}
