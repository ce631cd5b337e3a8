/** The application state shared by the request handlers: the two tables and
    the identity of the logged-in administrator, with one method per handler
    of the admin workflow, the public intake and the login flow. A commit that
    the database refuses is the flag `commitOk = false`; it rolls back, leaving
    the state as it was. */
module App {
  import opened Wrappers
  import opened Dates
  import opened Records
  import opened Intake
  import opened Enrollment
  import opened Listing
  import opened Auth

  const ADMIN_NAME_DEFAULT: string := "Administrador"

  datatype ContactResponse = ShowContactForm | RequestSent | RequestFailed

  datatype ListResponse = ListNeedsLogin | ManagementList(rows: seq<Alumno>)

  datatype EnrollResponse =
    | EnrollNeedsLogin
    | EnrollNotFound
    | EnrollServerError             // the id cannot be bound as an INTEGER: HTTP 500
    | ShowEnrollForm(alumno: Option<Alumno>)
    | Saved(created: bool, nombre: string, dateWarning: bool)
    | SaveFailed(alumnoId: Option<nat>, dateWarning: bool)

  datatype DeleteResponse =
    | DeleteNeedsLogin
    | DeleteNotFound
    | DeleteServerError             // the id cannot be bound as an INTEGER: HTTP 500
    | Deleted(nombre: string)
    | DeleteFailed

  datatype LogoutResponse = LogoutNeedsLogin | LoggedOut

  datatype InitResponse = MissingAdminConfig | AdminExists | AdminCreated | AdminCreateFailed

  /** `if alumno_id:` selects edit mode; an absent id and the id 0 are falsy
      and select creation. */
  function EditTarget(alumnoId: Option<nat>): (r: Option<nat>)
    ensures r.Some? <==> alumnoId.Some? && alumnoId.value != 0
    ensures r.Some? ==> r == alumnoId
  {
    if alumnoId.Some? && alumnoId.value != 0 then alumnoId else None
  }

  /** A configuration value Python treats as true: set and not empty. */
  predicate Truthy(v: Option<string>) {
    v.Some? && v.value != ""
  }

  class Academy {
    var users: seq<Usuario>
    var alumnos: map<nat, Alumno>
    /** The id of the user the session belongs to, if any. */
    var currentUser: Option<nat>

    ghost predicate Valid()
      reads this
    {
      KeyedById(alumnos) && AgesFit(alumnos) && UniqueCorreos(users) && UniqueUserIds(users)
    }

    /** Empty tables and no session. */
    constructor ()
      ensures Valid()
      ensures users == [] && alumnos == map[] && currentUser == None
    {
      users := [];
      alumnos := map[];
      currentUser := None;
    }

    /** `/login`: the decision is `LoginDecision`; a welcome binds the session to
        that user, every other answer leaves the session as it was. */
    method Login(isPost: bool, correo: Option<string>, password: string, next: Option<string>,
                 verify: (string, string) -> bool) returns (r: LoginResponse)
      requires Valid()
      modifies this
      ensures Valid()
      ensures r == LoginDecision(old(currentUser).Some?, isPost, users, correo, password, next, verify)
      ensures users == old(users) && alumnos == old(alumnos)
      ensures currentUser == if r.Welcome? then Some(r.user.id) else old(currentUser)
    {
      r := LoginDecision(currentUser.Some?, isPost, users, correo, password, next, verify);
      if r.Welcome? {
        currentUser := Some(r.user.id);
      }
    }

    /** `/logout`: requires a session and ends it. */
    method Logout() returns (r: LogoutResponse)
      requires Valid()
      modifies this
      ensures Valid()
      ensures users == old(users) && alumnos == old(alumnos)
      ensures old(currentUser).None? ==> r == LogoutNeedsLogin && currentUser == None
      ensures old(currentUser).Some? ==> r == LoggedOut && currentUser == None
    {
      if currentUser.None? {
        return LogoutNeedsLogin;
      }
      currentUser := None;
      r := LoggedOut;
    }

    /** The id the next inserted row receives. */
    method NextAlumnoId() returns (id: nat)
      ensures IsNextRowId(alumnos.Keys, id)
      ensures id !in alumnos
    {
      id := 1;
      var pending := alumnos.Keys;
      ghost var seen: set<nat> := {};
      while pending != {}
        invariant seen + pending == alumnos.Keys
        invariant id >= 1
        invariant forall k :: k in seen ==> k < id
        invariant id == 1 || id - 1 in alumnos.Keys
        decreases pending
      {
        var k :| k in pending;
        if id <= k {
          id := k + 1;
        }
        pending := pending - {k};
        seen := seen + {k};
      }
    }

    /** `/contacto`: a POST inserts the classified submission as a new row; a
        submission missing a NOT NULL value or a refused commit inserts
        nothing. No session is needed. */
    method Contacto(isPost: bool, form: IntakeForm, now: Timestamp, commitOk: bool)
      returns (r: ContactResponse)
      requires Valid()
      modifies this
      ensures Valid()
      ensures users == old(users) && currentUser == old(currentUser)
      ensures !isPost ==> r == ShowContactForm && alumnos == old(alumnos)
      ensures isPost ==> (r == RequestSent <==> Storable(IntakeDraft(form)) && commitOk)
      ensures isPost && r == RequestSent ==>
        exists id :: IsNextRowId(old(alumnos).Keys, id)
          && alumnos == old(alumnos)[id := InsertRow(IntakeDraft(form), id, now).value]
      ensures isPost && r != RequestSent ==> r == RequestFailed && alumnos == old(alumnos)
    {
      if !isPost {
        return ShowContactForm;
      }
      var id := NextAlumnoId();
      var row := InsertRow(IntakeDraft(form), id, now);
      if row.Some? && commitOk {
        alumnos := alumnos[id := row.value];
        r := RequestSent;
      } else {
        r := RequestFailed;
      }
    }

    /** `/movimiento`: every stored row exactly once, ordered by name. */
    method Movimiento() returns (r: ListResponse)
      requires Valid()
      ensures r.ListNeedsLogin? <==> currentUser.None?
      ensures r.ManagementList? ==>
        && SortedByName(r.rows)
        && multiset(r.rows) == multiset(alumnos.Values)
        && |r.rows| == |alumnos|
    {
      if currentUser.None? {
        return ListNeedsLogin;
      }
      var rows: seq<Alumno> := [];
      var pending := alumnos.Values;
      while pending != {}
        invariant pending <= alumnos.Values
        invariant SortedByName(rows)
        invariant multiset(rows) + multiset(pending) == multiset(alumnos.Values)
        decreases pending
      {
        var a :| a in pending;
        rows := InsertByName(rows, a);
        pending := pending - {a};
      }
      RowCount(alumnos);
      assert |multiset(rows)| == |multiset(alumnos.Values)|;
      r := ManagementList(rows);
    }

    /** `/inscribir` and `/inscribir/<id>`: show the form, create an admin
        enrollment, or edit an existing row. An id beyond the INTEGER range
        makes the lookup raise outside any handler. */
    method Inscribir(alumnoId: Option<nat>, isPost: bool, form: EnrollForm, today: Date,
                     now: Timestamp, commitOk: bool) returns (r: EnrollResponse)
      requires Valid()
      modifies this
      ensures Valid()
      ensures users == old(users) && currentUser == old(currentUser)
      ensures old(currentUser).None? ==> r == EnrollNeedsLogin && alumnos == old(alumnos)
      ensures old(currentUser).Some? && EditTarget(alumnoId).Some? && !FitsInteger(alumnoId.value) ==>
        r == EnrollServerError && alumnos == old(alumnos)
      ensures old(currentUser).Some? && EditTarget(alumnoId).Some? && FitsInteger(alumnoId.value)
              && alumnoId.value !in old(alumnos) ==>
        r == EnrollNotFound && alumnos == old(alumnos)
      ensures old(currentUser).Some? && !isPost && EditTarget(alumnoId).None? ==>
        r == ShowEnrollForm(None) && alumnos == old(alumnos)
      ensures old(currentUser).Some? && !isPost && EditTarget(alumnoId).Some? && FitsInteger(alumnoId.value)
              && alumnoId.value in old(alumnos) ==>
        r == ShowEnrollForm(Some(old(alumnos)[alumnoId.value])) && alumnos == old(alumnos)
      // creation
      ensures old(currentUser).Some? && isPost && EditTarget(alumnoId).None? ==>
        var d := CreateDraft(form, today);
        var warn := ParseDate(form.fechaNacimiento).None?;
        if Storable(d) && commitOk then
          && r == Saved(true, FullName(form), warn)
          && (exists id :: IsNextRowId(old(alumnos).Keys, id)
                && alumnos == old(alumnos)[id := InsertRow(d, id, now).value])
          && |alumnos| == |old(alumnos)| + 1
        else
          r == SaveFailed(alumnoId, warn) && alumnos == old(alumnos)
      // edit
      ensures old(currentUser).Some? && isPost && EditTarget(alumnoId).Some? && FitsInteger(alumnoId.value)
              && alumnoId.value in old(alumnos) ==>
        var e := ApplyEdit(old(alumnos)[alumnoId.value], form, today);
        var warn := ParseDate(form.fechaNacimiento).None?;
        if e.Some? && commitOk then
          r == Saved(false, FullName(form), warn) && alumnos == old(alumnos)[alumnoId.value := e.value]
        else
          r == SaveFailed(alumnoId, warn) && alumnos == old(alumnos)
    {
      if currentUser.None? {
        return EnrollNeedsLogin;
      }
      var target := EditTarget(alumnoId);
      if target.Some? && !FitsInteger(target.value) {
        return EnrollServerError;
      }
      if target.Some? && target.value !in alumnos {
        return EnrollNotFound;
      }
      if !isPost {
        return ShowEnrollForm(if target.Some? then Some(alumnos[target.value]) else None);
      }
      var warn := ParseDate(form.fechaNacimiento).None?;
      match target
      case None =>
        var id := NextAlumnoId();
        var row := InsertRow(CreateDraft(form, today), id, now);
        if row.Some? && commitOk {
          alumnos := alumnos[id := row.value];
          r := Saved(true, FullName(form), warn);
        } else {
          r := SaveFailed(alumnoId, warn);
        }
      case Some(id) =>
        var edited := ApplyEdit(alumnos[id], form, today);
        if edited.Some? && commitOk {
          alumnos := alumnos[id := edited.value];
          r := Saved(false, FullName(form), warn);
        } else {
          r := SaveFailed(alumnoId, warn);
        }
    }

    /** `/eliminar_alumno/<id>`: removes exactly that row, or nothing. An id
        beyond the INTEGER range makes the lookup raise outside any handler. */
    method Eliminar(id: nat, commitOk: bool) returns (r: DeleteResponse)
      requires Valid()
      modifies this
      ensures Valid()
      ensures users == old(users) && currentUser == old(currentUser)
      ensures old(currentUser).None? ==> r == DeleteNeedsLogin && alumnos == old(alumnos)
      ensures old(currentUser).Some? && !FitsInteger(id) ==> r == DeleteServerError && alumnos == old(alumnos)
      ensures old(currentUser).Some? && FitsInteger(id) && id !in old(alumnos) ==>
        r == DeleteNotFound && alumnos == old(alumnos)
      ensures old(currentUser).Some? && FitsInteger(id) && id in old(alumnos) && commitOk ==>
        && r == Deleted(old(alumnos)[id].nombre)
        && alumnos == old(alumnos) - {id}
        && |alumnos| == |old(alumnos)| - 1
      ensures old(currentUser).Some? && FitsInteger(id) && id in old(alumnos) && !commitOk ==>
        r == DeleteFailed && alumnos == old(alumnos)
    {
      if currentUser.None? {
        return DeleteNeedsLogin;
      }
      if !FitsInteger(id) {
        return DeleteServerError;
      }
      if id !in alumnos {
        return DeleteNotFound;
      }
      if commitOk {
        var nombre := alumnos[id].nombre;
        alumnos := alumnos - {id};
        assert alumnos.Keys == old(alumnos).Keys - {id};
        r := Deleted(nombre);
      } else {
        r := DeleteFailed;
      }
    }

    /** `init_db_and_admin`: with both the admin email and password configured,
        creates the admin account unless a user with that email exists. */
    method InitDbAndAdmin(adminEmail: Option<string>, adminPassword: Option<string>,
                          adminName: Option<string>, hashed: string, commitOk: bool)
      returns (r: InitResponse)
      requires Valid()
      modifies this
      ensures Valid()
      ensures alumnos == old(alumnos) && currentUser == old(currentUser)
      ensures !(Truthy(adminEmail) && Truthy(adminPassword)) ==>
        r == MissingAdminConfig && users == old(users)
      ensures Truthy(adminEmail) && Truthy(adminPassword) && FirstWithCorreo(old(users), adminEmail).Some? ==>
        r == AdminExists && users == old(users)
      ensures Truthy(adminEmail) && Truthy(adminPassword) && FirstWithCorreo(old(users), adminEmail).None? ==>
        if commitOk then
          r == AdminCreated
          && users == old(users) + [Usuario(NextUserId(old(users)), adminName.GetOr(ADMIN_NAME_DEFAULT),
                                            adminEmail.value, hashed, ROL_ADMIN)]
        else
          r == AdminCreateFailed && users == old(users)
    {
      if !(Truthy(adminEmail) && Truthy(adminPassword)) {
        return MissingAdminConfig;
      }
      if FirstWithCorreo(users, adminEmail).Some? {
        return AdminExists;
      }
      if commitOk {
        var admin := Usuario(NextUserId(users), adminName.GetOr(ADMIN_NAME_DEFAULT),
                             adminEmail.value, hashed, ROL_ADMIN);
        assert forall i :: 0 <= i < |users| ==> users[i].id in UserIds(users);
        users := users + [admin];
        r := AdminCreated;
      } else {
        r := AdminCreateFailed;
      }
    }
  }

  /** The admin account is created once: a second start-up with the same
      configuration finds it and adds nothing. */
  method AdminCreatedOnce(email: string, password: string, hashed: string)
    returns (first: InitResponse, second: InitResponse, accounts: nat)
    requires email != "" && password != ""
    ensures first == AdminCreated && second == AdminExists && accounts == 1
  {
    var academy := new Academy();
    first := academy.InitDbAndAdmin(Some(email), Some(password), None, hashed, true);
    second := academy.InitDbAndAdmin(Some(email), Some(password), None, hashed, true);
    accounts := |academy.users|;
  }

  /** End to end: a public pre-registration lands as row 1; once the logged-in
      admin edits it, it is an admin enrollment with the new name, still
      carrying its original timestamp. */
  method PreRegistrationThenEdit(email: string, password: string, hashed: string,
                                 intake: IntakeForm, edit: EnrollForm, today: Date,
                                 submitted: Timestamp, edited: Timestamp)
    returns (row: Alumno)
    requires email != "" && password != ""
    requires intake.nombre.Some? && intake.contacto.Some? && intake.edad.Some?
    requires intake.edad.value.IntValue? ==> FitsInteger(intake.edad.value.n)
    requires edit.contactoPadre.Some? && ValidDate(today)
    ensures row.id == 1 && row.tipoSolicitud == INSCRITO_POR_ADMIN
    ensures row.nombre == FullName(edit) && row.fechaSolicitud == submitted
  {
    var academy := new Academy();
    var init := academy.InitDbAndAdmin(Some(email), Some(password), None, hashed, true);
    var login := academy.Login(true, Some(email), password, None, (h: string, p: string) => h == hashed && p == password);
    var sent := academy.Contacto(true, intake, submitted, true);
    IntakeStorableIff(intake);
    assert academy.alumnos.Keys == {1} by {
      forall id | IsNextRowId({}, id) ensures id == 1 { NextRowIdUnique({}, id, 1); }
    }
    EditStorableIff(academy.alumnos[1], edit, today);
    var saved := academy.Inscribir(Some(1), true, edit, today, edited, true);
    row := academy.alumnos[1];
  }
}
