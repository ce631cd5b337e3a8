/** The public contact form (`/contacto`): one form serves both a
    pre-registration and a general inquiry, told apart by whether the request
    carries an `edad` key. */
module Intake {
  import opened Wrappers
  import opened Records

  /** What Python's `int(...)` makes of the `edad` field: a number, or the
      `ValueError` of a text that is not one. */
  datatype IntText = NotAnInt | IntValue(n: int)

  /** The submitted fields; `None` is a key the request does not carry. */
  datatype IntakeForm = IntakeForm(
    nombre: Option<string>,
    contacto: Option<string>,
    edad: Option<IntText>,
    categoria: Option<string>,
    email: Option<string>,
    mensaje: Option<string>)

  const INQUIRY_CATEGORIA: string := "Consulta"
  const EMAIL_DEFAULT: string := "N/A"
  const MENSAJE_DEFAULT: string := "Sin mensaje"

  /** The contact text an inquiry folds its email and message into. It holds
      the email right after its "Email: " label and ends with the message, so
      both can be read back from it. */
  function InquiryContact(email: string, mensaje: string): (c: string)
    ensures |c| == 7 + |email| + 11 + |mensaje|
    ensures c[..7] == "Email: "
    ensures c[7..7 + |email|] == email
    ensures c[7 + |email|..7 + |email| + 11] == ". Mensaje: "
    ensures c[|c| - |mensaje|..] == mensaje
  {
    "Email: " + email + ". Mensaje: " + mensaje
  }

  /** The row the contact form asks to insert. */
  function IntakeDraft(f: IntakeForm): (d: Draft)
    ensures d.nombre == f.nombre
    ensures d.tipoSolicitud == PRE_INSCRIPCION <==> f.edad.Some?
    ensures d.tipoSolicitud == SUGERENCIA_CONSULTA <==> f.edad.None?
    ensures d.categoria.Some?
    ensures f.edad.Some? ==>
      && d.edad == (if f.edad.value.IntValue? then f.edad.value.n else 0)
      && d.categoria == Some(f.categoria.GetOr(CATEGORIA_DEFAULT))
      && d.contacto == f.contacto
    ensures f.edad.None? ==>
      && d.edad == 0
      && d.categoria == Some(INQUIRY_CATEGORIA)
      && d.contacto == Some(InquiryContact(f.email.GetOr(EMAIL_DEFAULT), f.mensaje.GetOr(MENSAJE_DEFAULT)))
  {
    match f.edad
    case Some(e) =>
      var edad := match e { case IntValue(n) => n case NotAnInt => 0 };
      Draft(f.nombre, edad, Some(f.categoria.GetOr(CATEGORIA_DEFAULT)), f.contacto, PRE_INSCRIPCION)
    case None =>
      var contacto := InquiryContact(f.email.GetOr(EMAIL_DEFAULT), f.mensaje.GetOr(MENSAJE_DEFAULT));
      Draft(f.nombre, 0, Some(INQUIRY_CATEGORIA), Some(contacto), SUGERENCIA_CONSULTA)
  }

  /** The submission can be stored exactly when a name was sent and, for a
      pre-registration, a contact was sent too and a numeric `edad` fits an
      INTEGER; an inquiry always has a contact and age 0. */
  lemma IntakeStorableIff(f: IntakeForm)
    ensures Storable(IntakeDraft(f)) <==>
      && f.nombre.Some?
      && (f.edad.None? ||
          (f.contacto.Some? && (f.edad.value.NotAnInt? || FitsInteger(f.edad.value.n))))
  {
  }

  /** An `edad` that `int()` accepts but that is beyond 64 bits makes the
      INSERT fail, so the submission is answered with the error message. */
  lemma IntakeAgeOverflowFails(nombre: string, contacto: string)
    ensures !Storable(IntakeDraft(IntakeForm(Some(nombre), Some(contacto),
                                             Some(IntValue(100_000_000_000_000_000_000)), None, None, None)))
  {
  }

  /** Reading the two parts back is ambiguous once the email itself holds the
      separator: different submissions give the same contact text. */
  lemma InquiryContactNotInjective()
    ensures InquiryContact("a. Mensaje: b", "c") == InquiryContact("a", "b. Mensaje: c")
  {
  }

  /** A submission with `edad = 15` and a category is a pre-registration aged
      15; one with an email and a message but no `edad` is an inquiry. */
  lemma IntakeScenarios(nombre: string, contacto: string, email: string, mensaje: string)
    ensures var d := IntakeDraft(IntakeForm(Some(nombre), Some(contacto), Some(IntValue(15)), Some("Sub-15"), None, None));
      d.tipoSolicitud == PRE_INSCRIPCION && d.edad == 15 && d.categoria == Some("Sub-15") && d.contacto == Some(contacto)
    ensures var d := IntakeDraft(IntakeForm(Some(nombre), None, None, None, Some(email), Some(mensaje)));
      d.tipoSolicitud == SUGERENCIA_CONSULTA && d.edad == 0 && d.categoria == Some("Consulta")
      && d.contacto == Some("Email: " + email + ". Mensaje: " + mensaje)
  {
  }
}
