/** The registration page: its form state, the checks it runs before
    posting, the body it posts, and what it does with the answer. */
module RegisterPage {
  import opened Common
  import opened Text
  import opened Helper
  import AuthRoutes

  /** The form's five inputs. */
  datatype RegisterForm = RegisterForm(firstName: string, lastName: string, email: string,
                                       password: string, confirmPassword: string)

  /** The `name` attribute of an input. */
  datatype FormField = FirstName | LastName | Email | Password | ConfirmPassword

  /** The value of one input (`formData[name]`). */
  function ValueOf(form: RegisterForm, field: FormField): string {
    match field
    case FirstName => form.firstName
    case LastName => form.lastName
    case Email => form.email
    case Password => form.password
    case ConfirmPassword => form.confirmPassword
  }

  /** The form with one input replaced (`{...prev, [name]: value}`): that
      input reads the value, and every other input keeps its own. */
  function WithField(form: RegisterForm, field: FormField, value: string): (r: RegisterForm)
    ensures ValueOf(r, field) == value
    ensures forall f :: f != field ==> ValueOf(r, f) == ValueOf(form, f)
  {
    match field
    case FirstName => form.(firstName := value)
    case LastName => form.(lastName := value)
    case Email => form.(email := value)
    case Password => form.(password := value)
    case ConfirmPassword => form.(confirmPassword := value)
  }

  /** Everything the page checks before it posts. */
  predicate FormAcceptable(form: RegisterForm) {
    && !Blank(form.firstName) && !Blank(form.lastName) && !Blank(form.email)
    && '@' in form.email && '.' in form.email
    && form.password != "" && JsLength(form.password) >= 8
    && form.password == form.confirmPassword
  }

  /** The first failed check's message, in the page's order: names, email
      present, email shape, password present, password length, confirmation. */
  function ValidateRegistration(form: RegisterForm): (error: Option<string>)
    ensures error.None? <==> FormAcceptable(form)
    ensures (Blank(form.firstName) || Blank(form.lastName)) ==>
      error == Some("First name and last name are required")
    ensures (!Blank(form.firstName) && !Blank(form.lastName) && Blank(form.email)) ==>
      error == Some("Email is required")
    ensures (!Blank(form.firstName) && !Blank(form.lastName) && !Blank(form.email)
             && ('@' !in form.email || '.' !in form.email)) ==>
      error == Some("Please enter a valid email address")
    ensures (!Blank(form.firstName) && !Blank(form.lastName) && !Blank(form.email)
             && '@' in form.email && '.' in form.email && form.password == "") ==>
      error == Some("Password is required")
    ensures (!Blank(form.firstName) && !Blank(form.lastName) && !Blank(form.email)
             && '@' in form.email && '.' in form.email && form.password != ""
             && JsLength(form.password) < 8) ==>
      error == Some("Password must be at least 8 characters")
    ensures (!Blank(form.firstName) && !Blank(form.lastName) && !Blank(form.email)
             && '@' in form.email && '.' in form.email && form.password != ""
             && JsLength(form.password) >= 8 && form.password != form.confirmPassword) ==>
      error == Some("Passwords do not match")
  {
    TrimEmptyIffBlank(form.firstName);
    TrimEmptyIffBlank(form.lastName);
    TrimEmptyIffBlank(form.email);
    if Trim(form.firstName) == "" || Trim(form.lastName) == "" then Some("First name and last name are required")
    else if Trim(form.email) == "" then Some("Email is required")
    else if '@' !in form.email || '.' !in form.email then Some("Please enter a valid email address")
    else if form.password == "" then Some("Password is required")
    else if JsLength(form.password) < 8 then Some("Password must be at least 8 characters")
    else if form.password != form.confirmPassword then Some("Passwords do not match")
    else None
  }

  /** The body posted to /auth/register: the form without `confirmPassword`,
      and no role. */
  function Payload(form: RegisterForm): (body: AuthRoutes.RegisterBody)
    ensures body.firstName == Str(form.firstName) && body.lastName == Str(form.lastName)
    ensures body.email == Str(form.email) && body.password == Str(form.password)
    ensures body.role == Absent
  {
    AuthRoutes.RegisterBody(Str(form.firstName), Str(form.lastName), Str(form.email), Str(form.password), Absent)
  }

  /** The confirmation never leaves the page. */
  lemma PayloadIgnoresConfirmation(form: RegisterForm, confirmPassword: string)
    ensures Payload(form.(confirmPassword := confirmPassword)) == Payload(form)
  {
  }

  /** Where a registered user is sent: admins and superadmins to /home,
      anyone else to /profile. */
  function RedirectFor(role: string): (path: string)
    ensures path == "/home" <==> role == "admin" || role == "superadmin"
    ensures path == "/home" || path == "/profile"
  {
    if role == "admin" || role == "superadmin" then "/home" else "/profile"
  }

  /** A form the page accepts passes the server's presence and length
      checks and asks for no role; the server then turns it down only for an
      email its stricter pattern refuses or one already registered. The
      account it creates is an admin, whom the page sends to /home. */
  lemma AcceptedFormOnServer(form: RegisterForm, users: seq<AuthRoutes.User>)
    requires FormAcceptable(form)
    ensures AuthRoutes.HasRequiredFields(Payload(form))
    ensures ValidatePassword(form.password).None?
    ensures AuthRoutes.RegisterRejection(Payload(form), users).None? <==>
      IsValidEmail(form.email) && AuthRoutes.FindByEmail(users, form.email).None?
    ensures RedirectFor(AuthRoutes.NormalizeRole(Payload(form).role)) == "/home"
  {
    assert form.firstName != "" && form.lastName != "" && form.email != "";
  }

  /** Every email the server accepts also passes the page's checks. */
  lemma ServerEmailPassesPage(email: string)
    requires IsValidEmail(email)
    ensures !Blank(email) && '@' in email && '.' in email
  {
    var at := IndexOf(email, '@');
    var dot :| at + 1 < dot < |email| - 1 && email[dot] == '.';
    assert !IsSpace(email[0]);
  }

  /** "a@b." has nothing between its '.' and its end, so the server's
      pattern refuses it. */
  lemma DotLastEmailInvalid()
    ensures !IsValidEmail("a@b.")
  {
    var email := "a@b.";
    assert email[1] == '@' && email[..1] == "a";
    IndexOfIs(email, '@', 1);
  }

  /** A form whose email ends in its '.'. */
  const LooseForm := RegisterForm("Ada", "Lovelace", "a@b.", "password1", "password1")

  /** A string whose first character is not white space is not blank. */
  lemma LeadingCharNotBlank(s: string)
    requires s != [] && !IsSpace(s[0])
    ensures !Blank(s)
  {
  }

  /** The page's checks let `LooseForm` through. */
  lemma LooseFormPassesPage()
    ensures FormAcceptable(LooseForm)
  {
    LeadingCharNotBlank(LooseForm.firstName);
    LeadingCharNotBlank(LooseForm.lastName);
    LeadingCharNotBlank(LooseForm.email);
    assert LooseForm.email[1] == '@' && LooseForm.email[3] == '.';
  }

  /** The page is looser than the server: `LooseForm` passes the page and
      is refused by the server as an invalid email. */
  lemma PageLooserThanServer(users: seq<AuthRoutes.User>)
    ensures ValidateRegistration(LooseForm).None?
    ensures AuthRoutes.RegisterRejection(Payload(LooseForm), users) == Some(Fail(BadRequest, "Invalid email address"))
  {
    LooseFormPassesPage();
    AcceptedFormOnServer(LooseForm, users);
    DotLastEmailInvalid();
  }

  // ------------------------------------------------------------ the page

  /** The page's component state and what it leaves in local storage and
      in the router. */
  class RegisterPageState {
    var form: RegisterForm
    var error: string
    var loading: bool
    var storedToken: Option<string>
    var storedUser: Option<Option<AuthRoutes.FrontendUser>>
    var location: Option<string>

    constructor ()
      ensures form == RegisterForm("", "", "", "", "") && error == "" && !loading
      ensures storedToken.None? && storedUser.None? && location.None?
    {
      form := RegisterForm("", "", "", "", "");
      error, loading := "", false;
      storedToken, storedUser, location := None, None, None;
    }

    /** `handleChange`: one input takes the typed value and the error clears. */
    method HandleChange(field: FormField, value: string)
      modifies this
      ensures form == WithField(old(form), field, value) && error == ""
      ensures loading == old(loading) && storedToken == old(storedToken)
      ensures storedUser == old(storedUser) && location == old(location)
    {
      form := WithField(form, field, value);
      error := "";
    }

    /** `handleSubmit` up to the request: the first failed check is shown
      and nothing is sent; otherwise the payload is posted and the page
      waits. */
    method BeginSubmit() returns (request: Option<AuthRoutes.RegisterBody>)
      modifies this
      ensures form == old(form) && storedToken == old(storedToken)
      ensures storedUser == old(storedUser) && location == old(location)
      ensures ValidateRegistration(form).Some? ==>
        request.None? && error == ValidateRegistration(form).value && !loading
      ensures ValidateRegistration(form).None? ==>
        request == Some(Payload(form)) && error == "" && loading
    {
      error := "";
      loading := true;
      var failure := ValidateRegistration(form);
      if failure.Some? {
        error := failure.value;
        loading := false;
        return None;
      }
      request := Some(Payload(form));
    }

    /** `handleSubmit` after the request: on success the token and user are
      stored and the router moves on by role; a thrown error shows the
      server's message or the page's own. */
    method FinishSubmit(answer: ApiReply<AuthRoutes.Session>)
      modifies this
      ensures form == old(form) && !loading
      ensures answer.Answered? && !answer.success ==>
        error == old(error) && storedToken == old(storedToken) && storedUser == old(storedUser) && location == old(location)
      ensures answer.Answered? && answer.success ==>
        storedToken == Some(answer.data.token) && storedUser == Some(answer.data.user)
      ensures answer.Answered? && answer.success && answer.data.user.Some? ==>
        location == Some(RedirectFor(answer.data.user.value.role)) && error == old(error)
      ensures answer.Answered? && answer.success && answer.data.user.None? ==>
        location == old(location) && error == "Registration failed. Please try again."
      ensures answer.Failed? ==>
        && error == MessageOr(answer.message, "Registration failed. Please try again.")
        && storedToken == old(storedToken) && storedUser == old(storedUser) && location == old(location)
    {
      match answer {
        case Answered(success, data) =>
          if success {
            storedToken := Some(data.token);
            storedUser := Some(data.user);
            if data.user.None? {
              // reading `role` of a null user throws; the catch shows the fallback text
              error := MessageOr(None, "Registration failed. Please try again.");
            } else {
              location := Some(RedirectFor(data.user.value.role));
            }
          }
        case Failed(message) =>
          error := MessageOr(message, "Registration failed. Please try again.");
      }
      loading := false;
    }
  }
}
