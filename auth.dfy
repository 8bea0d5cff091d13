/**
 * Admin sessions: `login` checks an email and password against the admins table and stores
 * the admin in the session; `logout` destroys the session; `isAuthenticated` asks whether it
 * names a user. The password hash comparison is a parameter.
 */
module Auth {
  import opened Wrappers
  import opened Js

  const SessionCookieName: string := "goholiday_session"

  /** One week, in seconds. */
  const SessionMaxAge: nat := 60 * 60 * 24 * 7

  /** A row of the admins table. */
  datatype Admin = Admin(id: int, email: string, passwordHash: string)

  /** `{ success: true }` or `{ success: false, error }` */
  datatype LoginResult = LoginResult(success: bool, error: Option<string>)

  function InvalidCredentials(): LoginResult {
    LoginResult(false, Some("Invalid credentials"))
  }

  /** `SELECT * FROM admins WHERE email = ?` and its first row. */
  function FindAdmin(admins: seq<Admin>, email: string): (r: Option<nat>)
    ensures r.Some? ==> r.value < |admins| && admins[r.value].email == email
    ensures r.Some? ==> forall j | 0 <= j < r.value :: admins[j].email != email
    ensures r.None? <==> forall j | 0 <= j < |admins| :: admins[j].email != email
  {
    if admins == [] then None
    else if admins[0].email == email then Some(0)
    else
      var r := FindAdmin(admins[1..], email);
      assert forall j | 1 <= j < |admins| :: admins[j] == admins[1..][j - 1];
      if r.Some? then Some(r.value + 1) else None
  }

  /** The admin a login attempt signs in, if any: the row for the email, when the password matches its hash. */
  function Authenticated(admins: seq<Admin>, email: string, password: string, matches: (string, string) -> bool): (a: Option<Admin>)
    ensures a.Some? <==> FindAdmin(admins, email).Some? && matches(password, admins[FindAdmin(admins, email).value].passwordHash)
    ensures a.Some? ==> a.value in admins && a.value.email == email
  {
    match FindAdmin(admins, email)
    case None => None
    case Some(i) => if matches(password, admins[i].passwordHash) then Some(admins[i]) else None
  }

  /** What `login` answers. */
  function LoginAnswer(a: Option<Admin>): (r: LoginResult)
    ensures r.success <==> a.Some?
    ensures !r.success ==> r == InvalidCredentials()
  {
    if a.Some? then LoginResult(true, None) else InvalidCredentials()
  }

  /** An unknown email and a wrong password get the same answer. */
  lemma FailuresLookAlike(admins: seq<Admin>, unknown: string, known: string, wrong: string, matches: (string, string) -> bool)
    requires forall j | 0 <= j < |admins| :: admins[j].email != unknown
    requires FindAdmin(admins, known).Some? && !matches(wrong, admins[FindAdmin(admins, known).value].passwordHash)
    ensures LoginAnswer(Authenticated(admins, unknown, wrong, matches)) == LoginAnswer(Authenticated(admins, known, wrong, matches))
    ensures LoginAnswer(Authenticated(admins, unknown, wrong, matches)) == InvalidCredentials()
  {
  }

  /** The session the site seals into its cookie. */
  class Session {
    /** The session's fields; an absent field reads as `undefined`. */
    var data: Record

    /** A request without a session cookie. */
    constructor ()
      ensures data == map[]
    {
      data := map[];
    }

    /** `!!session.userId` */
    function IsAuthenticated(): (r: bool)
      reads this
      ensures r ==> "userId" in data && data["userId"] != Num(0)
    {
      Truthy(Field(data, "userId"))
    }

    /** `session.userId = admin.id; session.email = admin.email; await session.save()` */
    method SignIn(admin: Admin)
      modifies this
      ensures data == old(data)["userId" := Num(admin.id)]["email" := Str(admin.email)]
      ensures IsAuthenticated() <==> admin.id != 0
    {
      data := data["userId" := Num(admin.id)];
      data := data["email" := Str(admin.email)];
    }

    /** `session.destroy()` */
    method Destroy()
      modifies this
      ensures data == map[] && !IsAuthenticated()
    {
      data := map[];
    }
  }

  /**
   * `login(email, password)`: on success the session names the admin; on either failure the
   * session is untouched and the answer is the same.
   */
  method Login(session: Session, admins: seq<Admin>, email: string, password: string, matches: (string, string) -> bool)
    returns (r: LoginResult)
    modifies session
    ensures r == LoginAnswer(Authenticated(admins, email, password, matches))
    ensures Authenticated(admins, email, password, matches).None? ==> session.data == old(session.data)
    ensures Authenticated(admins, email, password, matches).Some? ==>
      var a := Authenticated(admins, email, password, matches).value;
      session.data == old(session.data)["userId" := Num(a.id)]["email" := Str(a.email)]
  {
    var found := FindAdmin(admins, email);
    if found.None? {
      return InvalidCredentials();
    }
    var admin := admins[found.value];
    var isValid := matches(password, admin.passwordHash);
    if !isValid {
      return InvalidCredentials();
    }
    session.SignIn(admin);
    r := LoginResult(true, None);
  }

  /** `logout()`: afterwards the session is not authenticated. */
  method Logout(session: Session)
    modifies session
    ensures !session.IsAuthenticated() && session.data == map[]
  {
    session.Destroy();
  }
}
