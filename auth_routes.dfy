/** The account handlers: register, login, profile read and update, the
    superadmin's user list and status change, over the `users` table.
    Password hashing, password comparison and token signing are parameters:
    `hash`, `matches` and `sign`. */
module AuthRoutes {
  import opened Common
  import opened Text
  import opened Helper
  import opened AuthMiddleware

  /** A row of the `users` table; `password` holds the stored hash and
      `createdAt` the insertion counter. */
  datatype User = User(id: nat, firstName: string, lastName: string, email: string, password: string,
                       role: string, status: string, createdAt: nat)

  /** `formatUserForFrontend`'s record: the user's columns in camelCase,
      without the password. */
  datatype FrontendUser = FrontendUser(role: string, firstName: string, lastName: string, email: string,
                                       status: string, id: nat, createdAt: nat)

  /** What a successful register or login sends back. */
  datatype Session = Session(user: Option<FrontendUser>, token: string)

  /** The members of a register request body. */
  datatype RegisterBody = RegisterBody(firstName: Field, lastName: Field, email: Field, password: Field, role: Field)

  /** The members of a login request body. */
  datatype LoginBody = LoginBody(email: Field, password: Field)

  /** The members of a profile update body the handler looks at. */
  datatype ProfileBody = ProfileBody(firstName: Field, lastName: Field, email: Field, role: Field, status: Field)

  // ------------------------------------------------------------ invariant

  predicate IsRole(role: string) {
    role == "admin" || role == "superadmin"
  }

  predicate IsStatus(status: string) {
    status == "active" || status == "inactive" || status == "suspended"
  }

  /** Unique ids, unique emails, and only the roles and statuses the table allows. */
  predicate UsersInvariant(users: seq<User>) {
    && (forall i, j :: 0 <= i < |users| && 0 <= j < |users| && users[i].id == users[j].id ==> i == j)
    && (forall i, j :: 0 <= i < |users| && 0 <= j < |users| && users[i].email == users[j].email ==> i == j)
    && (forall i :: 0 <= i < |users| ==> IsRole(users[i].role) && IsStatus(users[i].status))
  }

  // -------------------------------------------------------------- helpers

  /** The role a registration stores: "superadmin" only when exactly that
      string is asked for. */
  function NormalizeRole(role: Field): (r: string)
    ensures IsRole(r)
    ensures r == "superadmin" <==> role == Str("superadmin")
  {
    if role == Str("superadmin") then "superadmin" else "admin"
  }

  /** `findUserByEmail`: the first row with that email, or null. */
  function FindByEmail(users: seq<User>, email: string): (r: Option<User>)
    ensures r.Some? ==> r.value in users && r.value.email == email
    ensures r.None? <==> forall i :: 0 <= i < |users| ==> users[i].email != email
  {
    if users == [] then None
    else if users[0].email == email then Some(users[0])
    else
      assert forall i :: 1 <= i < |users| ==> users[i] == users[1..][i - 1];
      FindByEmail(users[1..], email)
  }

  /** `findUserById`: the row with that id, or null. */
  function FindById(users: seq<User>, id: nat): (r: Option<User>)
    ensures r.Some? ==> r.value in users && r.value.id == id
    ensures r.None? <==> forall i :: 0 <= i < |users| ==> users[i].id != id
  {
    if users == [] then None
    else if users[0].id == id then Some(users[0])
    else
      assert forall i :: 1 <= i < |users| ==> users[i] == users[1..][i - 1];
      FindById(users[1..], id)
  }

  /** With unique ids, looking up a row's id finds that row. */
  lemma FindByIdIs(users: seq<User>, k: nat)
    requires UsersInvariant(users) && k < |users|
    ensures FindById(users, users[k].id) == Some(users[k])
  {
    var u := FindById(users, users[k].id).value;
    var j :| 0 <= j < |users| && users[j] == u;
  }

  /** `formatUserForFrontend`: null stays null; otherwise every column but
      the password. */
  function FormatUser(user: Option<User>): (r: Option<FrontendUser>)
    ensures r.None? <==> user.None?
    ensures r.Some? ==>
      && r.value.id == user.value.id && r.value.email == user.value.email
      && r.value.firstName == user.value.firstName && r.value.lastName == user.value.lastName
      && r.value.role == user.value.role && r.value.status == user.value.status
      && r.value.createdAt == user.value.createdAt
  {
    match user
    case None => None
    case Some(u) => Some(FrontendUser(u.role, u.firstName, u.lastName, u.email, u.status, u.id, u.createdAt))
  }

  /** What the client receives does not depend on the stored password. */
  lemma FormatUserIgnoresPassword(u: User, password: string)
    ensures FormatUser(Some(u.(password := password))) == FormatUser(Some(u))
  {
  }

  /** The claims a token is signed with: id, email, role and the full name. */
  function ClaimsOf(u: User): Claims {
    Claims(u.id, u.email, u.role, u.firstName + " " + u.lastName)
  }

  /** A token signed over an account's claims opens every route that lists
      the account's role: with `verify` undoing `sign`, the guard hands the
      handler that account's own claims. */
  lemma SignedTokenPassesGuard(u: User, token: string, verify: string -> Option<Claims>, roles: seq<string>)
    requires verify(token) == Some(ClaimsOf(u))
    requires token != "" && ' ' !in token
    requires u.role in roles
    ensures Guard(Some("Bearer " + token), verify, roles) == Next(ClaimsOf(u))
    ensures Guard(Some("Bearer " + token), verify, roles).user.id == u.id
  {
    AnySchemeWordIsAccepted("Bearer", token, "");
  }

  /** A reply a middleware halted with, re-typed for a handler's reply. */
  function Relay<T>(r: Reply<()>): Reply<T> {
    Reply(r.status, Envelope(r.body.message, r.body.success, None))
  }

  // ------------------------------------------------------------- register

  /** Every required register member is a non-empty string. */
  predicate HasRequiredFields(body: RegisterBody) {
    Truthy(body.firstName) && Truthy(body.lastName) && Truthy(body.email) && Truthy(body.password)
  }

  /** The first check a registration fails, in the handler's order:
      missing member, malformed email, short password, taken email. */
  function RegisterRejection(body: RegisterBody, users: seq<User>): (r: Option<Reply<Session>>)
    ensures !HasRequiredFields(body) ==> r == Some(Fail(BadRequest, "Please provide all required fields"))
    ensures (HasRequiredFields(body) && !IsValidEmail(body.email.s)) ==>
      r == Some(Fail(BadRequest, "Invalid email address"))
    ensures (HasRequiredFields(body) && IsValidEmail(body.email.s) && JsLength(body.password.s) < 8) ==>
      r == Some(Fail(BadRequest, "Password must be at least 8 characters long"))
    ensures (HasRequiredFields(body) && IsValidEmail(body.email.s) && JsLength(body.password.s) >= 8
             && FindByEmail(users, body.email.s).Some?) ==>
      r == Some(Fail(Conflict, "Email already registered"))
    ensures r.None? <==>
      && HasRequiredFields(body) && IsValidEmail(body.email.s) && JsLength(body.password.s) >= 8
      && FindByEmail(users, body.email.s).None?
  {
    if !HasRequiredFields(body) then Some(Fail(BadRequest, "Please provide all required fields"))
    else if !IsValidEmail(body.email.s) then Some(Fail(BadRequest, "Invalid email address"))
    else if ValidatePassword(body.password.s).Some? then Some(Fail(BadRequest, ValidatePassword(body.password.s).value))
    else if FindByEmail(users, body.email.s).Some? then Some(Fail(Conflict, "Email already registered"))
    else None
  }

  /** Appending a row with a fresh id, an unused email, an allowed role and
      status keeps the invariant. */
  lemma AppendKeepsInvariant(users: seq<User>, u: User)
    requires UsersInvariant(users)
    requires forall i :: 0 <= i < |users| ==> users[i].id != u.id && users[i].email != u.email
    requires IsRole(u.role) && IsStatus(u.status)
    ensures UsersInvariant(users + [u])
  {
    var r := users + [u];
    assert forall i :: 0 <= i < |users| ==> r[i] == users[i];
    assert r[|users|] == u;
  }

  /** With unique emails, looking up a row's email finds that row. */
  lemma FindByEmailIs(users: seq<User>, k: nat)
    requires UsersInvariant(users) && k < |users|
    ensures FindByEmail(users, users[k].email) == Some(users[k])
  {
    var u := FindByEmail(users, users[k].email).value;
    var j :| 0 <= j < |users| && users[j] == u;
  }

  /** Appending a row with a fresh id, an unused email, an allowed role and
      status keeps the invariant, and the row is then found by its email
      and by its id. */
  lemma RegisterKeepsInvariant(users: seq<User>, u: User)
    requires UsersInvariant(users)
    requires forall i :: 0 <= i < |users| ==> users[i].id != u.id
    requires FindByEmail(users, u.email).None?
    requires IsRole(u.role) && IsStatus(u.status)
    ensures UsersInvariant(users + [u])
    ensures FindByEmail(users + [u], u.email) == Some(u)
    ensures FindById(users + [u], u.id) == Some(u)
  {
    AppendKeepsInvariant(users, u);
    var r := users + [u];
    assert r[|users|] == u;
    FindByIdIs(r, |users|);
    FindByEmailIs(r, |users|);
  }

  // ---------------------------------------------------------------- login

  /** POST /api/auth/login: 400 without both members, 401 "Invalid
      credentials" for an unknown email, 403 for an account that is not
      active, 401 "Invalid credentials" for a wrong password, otherwise the
      user and a signed token. */
  function Login(users: seq<User>, body: LoginBody, matches: (string, string) -> bool,
                 sign: Claims -> string): (r: Reply<Session>)
    ensures (!Truthy(body.email) || !Truthy(body.password)) ==> r == Fail(BadRequest, "Email and password required")
    ensures Truthy(body.email) && Truthy(body.password) && FindByEmail(users, body.email.s).None? ==>
      r == Fail(Unauthorized, "Invalid credentials")
    ensures Truthy(body.email) && Truthy(body.password) && FindByEmail(users, body.email.s).Some?
            && FindByEmail(users, body.email.s).value.status != "active" ==>
      r == Fail(Forbidden, "Account is inactive")
    ensures Truthy(body.email) && Truthy(body.password) && FindByEmail(users, body.email.s).Some?
            && FindByEmail(users, body.email.s).value.status == "active"
            && !matches(body.password.s, FindByEmail(users, body.email.s).value.password) ==>
      r == Fail(Unauthorized, "Invalid credentials")
    ensures r.status == Unauthorized ==> r == Fail(Unauthorized, "Invalid credentials")
    ensures r.status == Forbidden ==> r == Fail(Forbidden, "Account is inactive")
    ensures r.status in {BadRequest, Unauthorized, Forbidden, Ok}
    ensures r.status == Ok <==>
      && Truthy(body.email) && Truthy(body.password)
      && FindByEmail(users, body.email.s).Some?
      && FindByEmail(users, body.email.s).value.status == "active"
      && matches(body.password.s, FindByEmail(users, body.email.s).value.password)
    ensures r.status == Ok ==>
      r.body.data == Some(Session(FormatUser(FindByEmail(users, body.email.s)),
                                  sign(ClaimsOf(FindByEmail(users, body.email.s).value))))
  {
    if !Truthy(body.email) || !Truthy(body.password) then Fail(BadRequest, "Email and password required")
    else match FindByEmail(users, body.email.s)
      case None => Fail(Unauthorized, "Invalid credentials")
      case Some(user) =>
        if user.status != "active" then Fail(Forbidden, "Account is inactive")
        else if !matches(body.password.s, user.password) then Fail(Unauthorized, "Invalid credentials")
        else Respond(Ok, "Login successful", true, Some(Session(FormatUser(Some(user)), sign(ClaimsOf(user)))))
  }

  /** An unknown email and a wrong password get the same reply, so a caller
      cannot tell which accounts exist. */
  lemma LoginHidesUnknownEmail(users: seq<User>, unknown: LoginBody, known: LoginBody,
                               matches: (string, string) -> bool, sign: Claims -> string)
    requires Truthy(unknown.email) && Truthy(unknown.password) && FindByEmail(users, unknown.email.s).None?
    requires Truthy(known.email) && Truthy(known.password) && FindByEmail(users, known.email.s).Some?
    requires FindByEmail(users, known.email.s).value.status == "active"
    requires !matches(known.password.s, FindByEmail(users, known.email.s).value.password)
    ensures Login(users, unknown, matches, sign) == Login(users, known, matches, sign)
    ensures Login(users, unknown, matches, sign).status == Unauthorized
  {
  }

  /** The status check comes before the password comparison: an account
      that is not active gets 403 whatever the password. */
  lemma InactiveAccountIgnoresPassword(users: seq<User>, body: LoginBody, m1: (string, string) -> bool,
                                       m2: (string, string) -> bool, sign: Claims -> string)
    requires Truthy(body.email) && Truthy(body.password)
    requires FindByEmail(users, body.email.s).Some? && FindByEmail(users, body.email.s).value.status != "active"
    ensures Login(users, body, m1, sign) == Login(users, body, m2, sign) == Fail(Forbidden, "Account is inactive")
  {
  }

  // -------------------------------------------------------- profile read

  /** GET /api/auth/profile: the caller's row, or 404. */
  function GetProfile(users: seq<User>, caller: Claims): (r: Reply<Option<FrontendUser>>)
    ensures FindById(users, caller.id).None? ==> r == Fail(NotFound, "User not found")
    ensures FindById(users, caller.id).Some? ==>
      && r.status == Ok && r.body.success
      && r.body.data == Some(FormatUser(FindById(users, caller.id)))
      && r.body.data.value.value.id == caller.id
  {
    match FindById(users, caller.id)
    case None => Fail(NotFound, "User not found")
    case Some(user) => Respond(Ok, "Profile retrieved", true, Some(FormatUser(Some(user))))
  }

  // ------------------------------------------------------ profile update

  /** One `column = ?` of an `UPDATE users SET ...`. */
  datatype ProfileAssignment = SetFirstName(firstName: string) | SetLastName(lastName: string)

  /** The `SET` list the profile handler builds: each truthy name member,
      first name before last name. */
  function ProfileSetList(body: ProfileBody): seq<ProfileAssignment> {
    (if Truthy(body.firstName) then [SetFirstName(body.firstName.s)] else [])
    + (if Truthy(body.lastName) then [SetLastName(body.lastName.s)] else [])
  }

  /** A row after the profile assignments, applied left to right. */
  function AssignProfile(u: User, fields: seq<ProfileAssignment>): (r: User)
    ensures r == u.(firstName := r.firstName, lastName := r.lastName)
    decreases |fields|
  {
    if fields == [] then u
    else
      var next := match fields[0]
        case SetFirstName(n) => u.(firstName := n)
        case SetLastName(n) => u.(lastName := n);
      AssignProfile(next, fields[1..])
  }

  /** The handler's `SET` list changes the first name exactly when a truthy
      one is given, the last name likewise, and nothing else. */
  lemma ProfileSetListAssigns(u: User, body: ProfileBody)
    ensures AssignProfile(u, ProfileSetList(body)) ==
      u.(firstName := if Truthy(body.firstName) then body.firstName.s else u.firstName,
         lastName := if Truthy(body.lastName) then body.lastName.s else u.lastName)
    ensures ProfileSetList(body) == [] <==> !Truthy(body.firstName) && !Truthy(body.lastName)
  {
    var fields := ProfileSetList(body);
    if Truthy(body.firstName) && Truthy(body.lastName) {
      var named := u.(firstName := body.firstName.s);
      var rest := [SetLastName(body.lastName.s)];
      assert fields[1..] == rest;
      assert AssignProfile(u, fields) == AssignProfile(named, rest);
      assert rest[1..] == [];
      assert AssignProfile(named, rest) == named.(lastName := body.lastName.s);
    } else if Truthy(body.firstName) || Truthy(body.lastName) {
      assert fields[1..] == [];
    }
  }

  /** `UPDATE users SET <fields> WHERE id = ?`. */
  function AssignProfileColumns(users: seq<User>, id: nat, fields: seq<ProfileAssignment>): (r: seq<User>)
    ensures |r| == |users|
    ensures forall i :: 0 <= i < |users| ==>
      && r[i] == users[i].(firstName := r[i].firstName, lastName := r[i].lastName)
      && (users[i].id != id ==> r[i] == users[i])
  {
    seq(|users|, i requires 0 <= i < |users| => if users[i].id == id then AssignProfile(users[i], fields) else users[i])
  }

  /** A profile update touches only the names of the row with that id, so it
      keeps the invariant. */
  lemma ProfileUpdateKeepsInvariant(users: seq<User>, id: nat, fields: seq<ProfileAssignment>)
    requires UsersInvariant(users)
    ensures UsersInvariant(AssignProfileColumns(users, id, fields))
    ensures forall i :: 0 <= i < |users| ==>
      var r := AssignProfileColumns(users, id, fields)[i];
      r == users[i].(firstName := r.firstName, lastName := r.lastName) && (users[i].id != id ==> r == users[i])
  {
    var r := AssignProfileColumns(users, id, fields);
    forall i, j | 0 <= i < |r| && 0 <= j < |r| && r[i].id == r[j].id ensures i == j {
      assert users[i].id == users[j].id;
    }
    forall i, j | 0 <= i < |r| && 0 <= j < |r| && r[i].email == r[j].email ensures i == j {
      assert users[i].email == users[j].email;
    }
  }

  /** Setting no columns leaves the table as it is. */
  lemma NoProfileColumns(users: seq<User>, id: nat)
    ensures AssignProfileColumns(users, id, []) == users
  {
  }

  // -------------------------------------------------------- status update

  /** `["active", "inactive", "suspended"].includes(status)`. */
  predicate ValidStatus(status: Field) {
    status.Str? && IsStatus(status.s)
  }

  /** `UPDATE users SET status = ? WHERE id = ?`. */
  function SetStatusColumn(users: seq<User>, id: nat, status: string): (r: seq<User>)
    ensures |r| == |users|
    ensures forall i :: 0 <= i < |users| ==>
      && r[i] == users[i].(status := r[i].status)
      && (users[i].id == id ==> r[i].status == status)
      && (users[i].id != id ==> r[i] == users[i])
  {
    seq(|users|, i requires 0 <= i < |users| => if users[i].id == id then users[i].(status := status) else users[i])
  }

  /** A status change with an allowed value keeps the invariant and changes
      only that user's status. */
  lemma StatusChangeKeepsInvariant(users: seq<User>, id: nat, status: string)
    requires UsersInvariant(users) && IsStatus(status)
    ensures UsersInvariant(SetStatusColumn(users, id, status))
    ensures forall i :: 0 <= i < |users| ==>
      SetStatusColumn(users, id, status)[i] == if users[i].id == id then users[i].(status := status) else users[i]
  {
    var r := SetStatusColumn(users, id, status);
    forall i, j | 0 <= i < |r| && 0 <= j < |r| && r[i].id == r[j].id ensures i == j {
      assert users[i].id == users[j].id;
    }
    forall i, j | 0 <= i < |r| && 0 <= j < |r| && r[i].email == r[j].email ensures i == j {
      assert users[i].email == users[j].email;
    }
  }

  /** After a status change the user is found with the new status. */
  lemma StatusChangeIsVisible(users: seq<User>, id: nat, status: string)
    requires UsersInvariant(users) && IsStatus(status) && FindById(users, id).Some?
    ensures FindById(SetStatusColumn(users, id, status), id) == Some(FindById(users, id).value.(status := status))
  {
    StatusChangeKeepsInvariant(users, id, status);
    var r := SetStatusColumn(users, id, status);
    var k :| 0 <= k < |users| && users[k] == FindById(users, id).value;
    FindByIdIs(r, k);
  }

  // ------------------------------------------------------------ all users

  /** GET /api/auth/all-users behind `authorizeRoles("superadmin")`: every
      user, in table order, formatted without the password. */
  function AllUsers(users: seq<User>, caller: Claims): (r: Reply<seq<FrontendUser>>)
    ensures r.status == Ok <==> caller.role == "superadmin"
    ensures caller.role != "superadmin" ==>
      r == Fail(Forbidden, "You do not have permission to access this resource")
    ensures r.status == Ok ==>
      && r.body.data.Some? && |r.body.data.value| == |users|
      && forall i :: 0 <= i < |users| ==> Some(r.body.data.value[i]) == FormatUser(Some(users[i]))
  {
    match AuthorizeRoles(["superadmin"], Some(caller))
    case Halt(reply) => Relay(reply)
    case Next(_) =>
      Respond(Ok, "Users retrieved", true,
              Some(seq(|users|, i requires 0 <= i < |users| => FormatUser(Some(users[i])).value)))
  }

  // ------------------------------------------------------------ the table

  /** The `users` table with its AUTO_INCREMENT counter and the clock that
      stamps `created_at`. */
  class UserStore {
    var users: seq<User>
    var nextId: nat
    var clock: nat

    ghost predicate Valid()
      reads this
    {
      && UsersInvariant(users)
      && (forall i :: 0 <= i < |users| ==> users[i].id < nextId && users[i].createdAt < clock)
    }

    constructor ()
      ensures Valid() && users == []
    {
      users, nextId, clock := [], 1, 1;
    }

    /** POST /api/auth/register. A new account is active and stores the
        hash of the password, never the password itself. */
    method Register(body: RegisterBody, hash: string -> string, sign: Claims -> string) returns (reply: Reply<Session>)
      requires Valid()
      modifies this
      ensures Valid()
      ensures RegisterRejection(body, old(users)).Some? ==>
        && reply == RegisterRejection(body, old(users)).value
        && users == old(users) && nextId == old(nextId) && clock == old(clock)
      ensures RegisterRejection(body, old(users)).None? ==>
        && var u := User(old(nextId), body.firstName.s, body.lastName.s, body.email.s, hash(body.password.s),
                         NormalizeRole(body.role), "active", old(clock));
        && users == old(users) + [u]
        && nextId == old(nextId) + 1 && clock == old(clock) + 1
        && FindByEmail(users, body.email.s) == Some(u)
        && reply == Respond(Created, "Registration successful", true,
                            Some(Session(FormatUser(Some(u)), sign(ClaimsOf(u)))))
    {
      var role := NormalizeRole(body.role);
      if !Truthy(body.firstName) || !Truthy(body.lastName) || !Truthy(body.email) || !Truthy(body.password) {
        return Fail(BadRequest, "Please provide all required fields");
      }
      if !IsValidEmail(body.email.s) {
        return Fail(BadRequest, "Invalid email address");
      }
      var passwordError := ValidatePassword(body.password.s);
      if passwordError.Some? {
        return Fail(BadRequest, passwordError.value);
      }
      var existingUser := FindByEmail(users, body.email.s);
      if existingUser.Some? {
        return Fail(Conflict, "Email already registered");
      }
      var row := InsertUser(body.firstName.s, body.lastName.s, body.email.s, hash(body.password.s), role);
      var newUser := FindById(users, row.id);
      var token := sign(ClaimsOf(newUser.value));
      reply := Respond(Created, "Registration successful", true, Some(Session(FormatUser(newUser), token)));
    }

    /** The register handler's `INSERT`: a new active row with the next id
        and the current time, found afterwards by its email and its id. */
    method InsertUser(firstName: string, lastName: string, email: string, password: string, role: string)
      returns (row: User)
      requires Valid() && FindByEmail(users, email).None? && IsRole(role)
      modifies this
      ensures Valid()
      ensures row == User(old(nextId), firstName, lastName, email, password, role, "active", old(clock))
      ensures users == old(users) + [row]
      ensures nextId == old(nextId) + 1 && clock == old(clock) + 1
      ensures FindByEmail(users, email) == Some(row) && FindById(users, row.id) == Some(row)
    {
      row := User(nextId, firstName, lastName, email, password, role, "active", clock);
      RegisterKeepsInvariant(users, row);
      users := users + [row];
      nextId, clock := nextId + 1, clock + 1;
    }

    /** PUT /api/auth/profile: only the caller's first and last names, and
        only those given as non-empty strings. */
    method UpdateProfile(caller: Claims, body: ProfileBody) returns (reply: Reply<Option<FrontendUser>>)
      requires Valid()
      modifies this
      ensures Valid()
      ensures nextId == old(nextId) && clock == old(clock)
      ensures (Truthy(body.email) || Truthy(body.role) || Truthy(body.status)) ==>
        users == old(users) && reply == Fail(Forbidden, "Cannot change email, role, or status")
      ensures !(Truthy(body.email) || Truthy(body.role) || Truthy(body.status)) ==>
        && users == AssignProfileColumns(old(users), caller.id, ProfileSetList(body))
        && reply == Respond(Ok, if ProfileSetList(body) == [] then "No changes made" else "Profile updated", true,
                            Some(FormatUser(FindById(users, caller.id))))
    {
      if Truthy(body.email) || Truthy(body.role) || Truthy(body.status) {
        return Fail(Forbidden, "Cannot change email, role, or status");
      }
      var fields: seq<ProfileAssignment> := [];
      if Truthy(body.firstName) {
        fields := fields + [SetFirstName(body.firstName.s)];
      }
      if Truthy(body.lastName) {
        fields := fields + [SetLastName(body.lastName.s)];
      }
      assert fields == ProfileSetList(body);
      if |fields| == 0 {
        NoProfileColumns(users, caller.id);
        var user := FindById(users, caller.id);
        return Respond(Ok, "No changes made", true, Some(FormatUser(user)));
      }
      ProfileUpdateKeepsInvariant(users, caller.id, fields);
      users := AssignProfileColumns(users, caller.id, fields);
      var updatedUser := FindById(users, caller.id);
      reply := Respond(Ok, "Profile updated", true, Some(FormatUser(updatedUser)));
    }

    /** PUT /api/auth/users/:id/status behind `authorizeRoles("superadmin")`. */
    method SetStatus(caller: Claims, userId: nat, status: Field) returns (reply: Reply<Option<FrontendUser>>)
      requires Valid()
      modifies this`users
      ensures Valid()
      ensures nextId == old(nextId) && clock == old(clock)
      ensures reply.status != Ok ==> users == old(users)
      ensures caller.role != "superadmin" ==>
        reply == Fail(Forbidden, "You do not have permission to access this resource")
      ensures (caller.role == "superadmin" && !ValidStatus(status)) ==> reply == Fail(BadRequest, "Invalid status value")
      ensures (caller.role == "superadmin" && ValidStatus(status) && FindById(old(users), userId).None?) ==>
        reply == Fail(NotFound, "User not found")
      ensures reply.status == Ok <==>
        caller.role == "superadmin" && ValidStatus(status) && FindById(old(users), userId).Some?
      ensures reply.status == Ok ==>
        && caller.role == "superadmin" && ValidStatus(status) && FindById(old(users), userId).Some?
        && users == SetStatusColumn(old(users), userId, status.s)
        && reply == Respond(Ok, "User status updated", true,
                            Some(FormatUser(Some(FindById(old(users), userId).value.(status := status.s)))))
    {
      var gate := AuthorizeRoles(["superadmin"], Some(caller));
      if gate.Halt? {
        return Relay(gate.reply);
      }
      if !ValidStatus(status) {
        return Fail(BadRequest, "Invalid status value");
      }
      var user := FindById(users, userId);
      if user.None? {
        return Fail(NotFound, "User not found");
      }
      WriteStatus(userId, status.s);
      var updatedUser := FindById(users, userId);
      reply := Respond(Ok, "User status updated", true, Some(FormatUser(updatedUser)));
    }

    /** The status handler's `UPDATE`: only that user's status changes, and
        the user is then found with it. */
    method WriteStatus(id: nat, status: string)
      requires Valid() && IsStatus(status) && FindById(users, id).Some?
      modifies this`users
      ensures Valid()
      ensures users == SetStatusColumn(old(users), id, status)
      ensures FindById(users, id) == Some(FindById(old(users), id).value.(status := status))
    {
      StatusChangeKeepsInvariant(users, id, status);
      StatusChangeIsVisible(users, id, status);
      users := SetStatusColumn(users, id, status);
    }
  }
}
