/** The `usuarios` table and the login decision of `/login`. Password checking is
    the bcrypt library's and enters as a parameter `(stored hash, supplied
    password) -> verifies`. */
module Auth {
  import opened Wrappers
  import opened Records

  const ROL_ADMIN: string := "admin"

  /** A stored administrator account; `contrasena` is the bcrypt hash. */
  datatype Usuario = Usuario(id: nat, nombre: string, correo: string, contrasena: string, rol: string)

  /** The unique constraint on `correo`. */
  ghost predicate UniqueCorreos(users: seq<Usuario>) {
    forall i, j :: 0 <= i < j < |users| ==> users[i].correo != users[j].correo
  }

  /** Row ids are distinct. */
  ghost predicate UniqueUserIds(users: seq<Usuario>) {
    forall i, j :: 0 <= i < j < |users| ==> users[i].id != users[j].id
  }

  /** `filter_by(correo=correo).first()`: the position of the first user with
      that email. An absent email field filters on `IS NULL`, which no row of the
      NOT NULL column matches. */
  function FirstWithCorreo(users: seq<Usuario>, correo: Option<string>): (r: Option<nat>)
    ensures r.None? <==> forall i :: 0 <= i < |users| ==> Some(users[i].correo) != correo
    ensures r.Some? ==> r.value < |users| && Some(users[r.value].correo) == correo
    ensures r.Some? ==> forall i :: 0 <= i < r.value ==> Some(users[i].correo) != correo
    decreases |users|
  {
    if users == [] then None
    else if Some(users[0].correo) == correo then Some(0)
    else match FirstWithCorreo(users[1..], correo)
      case None => None
      case Some(i) => Some(i + 1)
  }

  /** The ids in use in the `usuarios` table. */
  function UserIds(users: seq<Usuario>): set<nat> {
    set u | u in users :: u.id
  }

  /** The id a new user row receives, by the same SQLite rule as a new
      `alumnos` row: one more than the largest id, or 1 when there are none. */
  function NextUserId(users: seq<Usuario>): (r: nat)
    ensures IsNextRowId(UserIds(users), r)
    decreases |users|
  {
    if users == [] then 1
    else
      var rest := NextUserId(users[1..]);
      assert UserIds(users) == {users[0].id} + UserIds(users[1..]) by {
        assert users == [users[0]] + users[1..];
      }
      if users[0].id + 1 > rest then users[0].id + 1 else rest
  }

  /** Where a successful login redirects: the `next` query argument when it is
      a non-empty string, else the home page. */
  datatype Target = Home | Next(url: string)

  function LoginTarget(next: Option<string>): (t: Target)
    ensures t.Next? <==> next.Some? && next.value != ""
    ensures t.Next? ==> t.url == next.value
  {
    if next.Some? && next.value != "" then Next(next.value) else Home
  }

  datatype LoginResponse =
    | AlreadyAuthenticated          // redirect home, no credential check
    | ShowLoginForm                 // GET without a session
    | Welcome(user: Usuario, target: Target)
    | BadCredentials                // "Credenciales incorrectas", form shown again

  /** The `/login` handler's decision. */
  function LoginDecision(authenticated: bool, isPost: bool, users: seq<Usuario>,
                         correo: Option<string>, password: string, next: Option<string>,
                         verify: (string, string) -> bool): (r: LoginResponse)
    ensures authenticated ==> r == AlreadyAuthenticated
    ensures !authenticated && !isPost ==> r == ShowLoginForm
    ensures !authenticated && isPost ==> r.Welcome? || r == BadCredentials
    ensures r.Welcome? ==>
      && r.user in users && Some(r.user.correo) == correo
      && verify(r.user.contrasena, password)
      && r.target == LoginTarget(next)
  {
    if authenticated then AlreadyAuthenticated
    else if !isPost then ShowLoginForm
    else match FirstWithCorreo(users, correo)
      case Some(i) =>
        if verify(users[i].contrasena, password) then Welcome(users[i], LoginTarget(next))
        else BadCredentials
      case None => BadCredentials
  }

  /** With unique emails, a login attempt succeeds exactly when some user has
      the supplied email and the supplied password verifies against that user's
      hash, and the session then belongs to that user. */
  lemma LoginSucceedsIff(users: seq<Usuario>, correo: Option<string>, password: string,
                         next: Option<string>, verify: (string, string) -> bool)
    requires UniqueCorreos(users)
    ensures var r := LoginDecision(false, true, users, correo, password, next, verify);
      r.Welcome? <==> exists i :: 0 <= i < |users| && Some(users[i].correo) == correo
                                  && verify(users[i].contrasena, password)
    ensures forall i :: 0 <= i < |users| && Some(users[i].correo) == correo
                        && verify(users[i].contrasena, password) ==>
      LoginDecision(false, true, users, correo, password, next, verify) == Welcome(users[i], LoginTarget(next))
  {
    var f := FirstWithCorreo(users, correo);
    if f.Some? {
      forall i | 0 <= i < |users| && Some(users[i].correo) == correo
        ensures i == f.value
      {
        SameCorreoSamePosition(users, i, f.value);
      }
    }
  }

  /** Under the unique constraint an email names at most one position. */
  lemma SameCorreoSamePosition(users: seq<Usuario>, i: nat, j: nat)
    requires UniqueCorreos(users) && i < |users| && j < |users|
    requires users[i].correo == users[j].correo
    ensures i == j
  {
  }

  /** Without the unique constraint the first match decides: a second account
      with the same email whose password would verify is never reached. */
  lemma LoginNeedsUniqueCorreos()
    ensures var u1 := Usuario(1, "A", "a@x", "h1", ROL_ADMIN);
            var u2 := Usuario(2, "B", "a@x", "h2", ROL_ADMIN);
            var verify := (h: string, p: string) => h == "h2";
      LoginDecision(false, true, [u1, u2], Some("a@x"), "pw", None, verify) == BadCredentials
  {
  }
}
