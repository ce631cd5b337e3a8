/** The admin enrollment form (`/inscribir` and `/inscribir/<id>`): the full
    name, the age derived from the birth date with its soft fallback, the row a
    creation inserts and what an edit does to an existing row. */
module Enrollment {
  import opened Wrappers
  import opened Dates
  import opened Records

  /** The submitted fields; `None` is a key the request does not carry. */
  datatype EnrollForm = EnrollForm(
    nombre: Option<string>,
    apellido: Option<string>,
    fechaNacimiento: DateText,
    contactoPadre: Option<string>,
    categoria: Option<string>)

  /** How an f-string renders a form value: a missing one prints as "None". */
  function Rendered(v: Option<string>): string {
    v.GetOr("None")
  }

  /** `f"{nombre} {apellido}"`: the first name, one space, then the last name. */
  function FullName(f: EnrollForm): (full: string)
    ensures |full| == |Rendered(f.nombre)| + 1 + |Rendered(f.apellido)|
    ensures full[..|Rendered(f.nombre)|] == Rendered(f.nombre)
    ensures full[|Rendered(f.nombre)|] == ' '
    ensures full[|Rendered(f.nombre)| + 1..] == Rendered(f.apellido)
  {
    var n, a := Rendered(f.nombre), Rendered(f.apellido);
    assert n + " " + a == n + ([' '] + a);
    n + " " + a
  }

  datatype DerivedAge = DerivedAge(edad: int, dateWarning: bool)

  /** The age stored by the form. A birth date that parses gives the age on
      `today`; one that is missing or does not parse raises the date warning and
      keeps `existing` (the edited row's age) or 0 when creating. */
  function AgeFromForm(fecha: DateText, today: Date, existing: Option<int>): (r: DerivedAge)
    ensures r.dateWarning <==> ParseDate(fecha).None?
    ensures !r.dateWarning ==> r.edad == AgeOn(ParseDate(fecha).value, today)
    ensures r.dateWarning ==> r.edad == existing.GetOr(0)
  {
    match ParseDate(fecha)
    case Some(birth) => DerivedAge(AgeOn(birth, today), false)
    case None => DerivedAge(existing.GetOr(0), true)
  }

  /** The row a creation asks to insert: always an admin enrollment. */
  function CreateDraft(f: EnrollForm, today: Date): (d: Draft)
    ensures d.tipoSolicitud == INSCRITO_POR_ADMIN
    ensures d.nombre == Some(FullName(f))
    ensures d.edad == AgeFromForm(f.fechaNacimiento, today, None).edad
    ensures d.categoria == f.categoria && d.contacto == f.contactoPadre
  {
    Draft(Some(FullName(f)), AgeFromForm(f.fechaNacimiento, today, None).edad,
          f.categoria, f.contactoPadre, INSCRITO_POR_ADMIN)
  }

  /** A creation can be stored exactly when the guardian contact was sent (the
      name is always filled, at worst with "None") and the age fits an INTEGER,
      which it always does when `today` is a calendar date. */
  lemma CreateStorableIff(f: EnrollForm, today: Date)
    ensures Storable(CreateDraft(f, today)) <==>
      f.contactoPadre.Some? && FitsInteger(AgeFromForm(f.fechaNacimiento, today, None).edad)
    ensures ValidDate(today) ==> (Storable(CreateDraft(f, today)) <==> f.contactoPadre.Some?)
  {
    if ValidDate(today) && ParseDate(f.fechaNacimiento).Some? {
      AgeBetweenValidDates(ParseDate(f.fechaNacimiento).value, today);
    }
  }

  /** An edit of row `a`: name, age, category and contact are overwritten, the
      request type is promoted, id and timestamp are kept. Assigning a missing
      contact to the NOT NULL column, or an age outside the INTEGER range, makes
      the commit fail (`None`); a missing category is stored as NULL. */
  function ApplyEdit(a: Alumno, f: EnrollForm, today: Date): (r: Option<Alumno>)
    ensures r.Some? <==>
      f.contactoPadre.Some? && FitsInteger(AgeFromForm(f.fechaNacimiento, today, Some(a.edad)).edad)
    ensures r.Some? ==> r.value.id == a.id && r.value.fechaSolicitud == a.fechaSolicitud
    ensures r.Some? ==> r.value.tipoSolicitud == Promote(a.tipoSolicitud)
    ensures r.Some? ==>
      && r.value.nombre == FullName(f)
      && r.value.edad == AgeFromForm(f.fechaNacimiento, today, Some(a.edad)).edad
      && r.value.categoria == f.categoria
      && Some(r.value.contacto) == f.contactoPadre
  {
    var edad := AgeFromForm(f.fechaNacimiento, today, Some(a.edad)).edad;
    match f.contactoPadre
    case None => None
    case Some(c) =>
      if FitsInteger(edad) then
        Some(a.(nombre := FullName(f),
                edad := edad,
                categoria := f.categoria,
                contacto := c,
                tipoSolicitud := Promote(a.tipoSolicitud)))
      else None
  }

  /** For a stored row (its age an INTEGER) and a calendar `today`, only a
      missing guardian contact makes an edit fail. */
  lemma EditStorableIff(a: Alumno, f: EnrollForm, today: Date)
    requires FitsInteger(a.edad) && ValidDate(today)
    ensures ApplyEdit(a, f, today).Some? <==> f.contactoPadre.Some?
  {
    if ParseDate(f.fechaNacimiento).Some? {
      AgeBetweenValidDates(ParseDate(f.fechaNacimiento).value, today);
    }
  }

  /** What a successful edit means for the request type and the age: a public
      request becomes an admin enrollment, an admin enrollment stays one, any
      other type is kept; a birth date that does not parse keeps the row's age. */
  lemma EditPromotesAndKeepsAge(a: Alumno, f: EnrollForm, today: Date)
    requires ApplyEdit(a, f, today).Some?
    ensures var e := ApplyEdit(a, f, today).value;
      && (IsPublicRequest(a.tipoSolicitud) ==> e.tipoSolicitud == INSCRITO_POR_ADMIN)
      && (a.tipoSolicitud == INSCRITO_POR_ADMIN ==> e.tipoSolicitud == INSCRITO_POR_ADMIN)
      && (!IsPublicRequest(a.tipoSolicitud) ==> e.tipoSolicitud == a.tipoSolicitud)
      && Rank(a.tipoSolicitud) <= Rank(e.tipoSolicitud)
      && (ParseDate(f.fechaNacimiento).None? ==> e.edad == a.edad)
  {
    PromoteNeverDemotes(a.tipoSolicitud);
  }

  /** Editing the same row twice with the same form gives the same row as
      editing it once. */
  lemma EditIdempotent(a: Alumno, f: EnrollForm, today: Date)
    requires ApplyEdit(a, f, today).Some?
    ensures ApplyEdit(ApplyEdit(a, f, today).value, f, today) == ApplyEdit(a, f, today)
  {
    PromoteNeverDemotes(a.tipoSolicitud);
  }
}
