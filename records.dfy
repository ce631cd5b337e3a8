/** The `alumnos` table: one row per pre-registration, inquiry or admin
    enrollment, the request-type values the application writes, and what an
    INSERT of a pending row makes of it. */
module Records {
  import opened Wrappers

  /** The server-assigned `fecha_solicitud`; the clock is a parameter. */
  type Timestamp = int

  const PRE_INSCRIPCION: string := "Pre-Inscripción"
  const SUGERENCIA_CONSULTA: string := "Sugerencia/Consulta"
  const INSCRITO_POR_ADMIN: string := "Inscrito por Admin"

  /** The column default of `categoria`. */
  const CATEGORIA_DEFAULT: string := "N/A"

  /** A stored row. `categoria` is a nullable column; `nombre` and `contacto`
      are NOT NULL; `tipoSolicitud` is free text, though the application only
      writes the three constants above. */
  datatype Alumno = Alumno(
    id: nat,
    nombre: string,
    edad: int,
    categoria: Option<string>,
    contacto: string,
    tipoSolicitud: string,
    fechaSolicitud: Timestamp)

  /** A row built by a handler before it is committed: the values passed to the
      `Alumno(...)` constructor, any of which may be Python's `None`. */
  datatype Draft = Draft(
    nombre: Option<string>,
    edad: int,
    categoria: Option<string>,
    contacto: Option<string>,
    tipoSolicitud: string)

  /** SQLite's INTEGER is a 64-bit signed number; Python's `sqlite3` raises
      `OverflowError` when asked to bind an int outside that range. */
  const INTEGER_MIN: int := -0x8000_0000_0000_0000
  const INTEGER_MAX: int := 0x7FFF_FFFF_FFFF_FFFF

  predicate FitsInteger(n: int) {
    INTEGER_MIN <= n <= INTEGER_MAX
  }

  /** The NOT NULL columns without a default are filled and the age can be
      bound as an INTEGER. */
  predicate Storable(d: Draft) {
    d.nombre.Some? && d.contacto.Some? && FitsInteger(d.edad)
  }

  /** INSERT of a draft under row id `id` at time `now`. The ORM leaves
      `None`-valued attributes out of the statement, so an absent `categoria`
      takes the column default; an absent `nombre` or `contacto` violates
      NOT NULL and an age outside the INTEGER range cannot be bound, and either
      makes the commit fail (`None`). */
  function InsertRow(d: Draft, id: nat, now: Timestamp): (r: Option<Alumno>)
    ensures r.Some? <==> Storable(d)
    ensures r.Some? ==> r.value.id == id && r.value.fechaSolicitud == now
    ensures r.Some? ==> Some(r.value.nombre) == d.nombre && Some(r.value.contacto) == d.contacto
    ensures r.Some? ==> r.value.edad == d.edad && r.value.tipoSolicitud == d.tipoSolicitud
    ensures r.Some? ==> r.value.categoria.Some?
    ensures r.Some? && d.categoria.Some? ==> r.value.categoria == d.categoria
    ensures r.Some? && d.categoria.None? ==> r.value.categoria == Some(CATEGORIA_DEFAULT)
  {
    if Storable(d) then
      Some(Alumno(id, d.nombre.value, d.edad, Some(d.categoria.GetOr(CATEGORIA_DEFAULT)),
                  d.contacto.value, d.tipoSolicitud, now))
    else None
  }

  /** The request types the public form creates. */
  predicate IsPublicRequest(t: string) {
    t == PRE_INSCRIPCION || t == SUGERENCIA_CONSULTA
  }

  /** An admin edit promotes a public request to an admin enrollment and leaves
      any other request type as it is. */
  function Promote(t: string): (r: string)
    ensures IsPublicRequest(t) ==> r == INSCRITO_POR_ADMIN
    ensures !IsPublicRequest(t) ==> r == t
  {
    if IsPublicRequest(t) then INSCRITO_POR_ADMIN else t
  }

  /** 1 for an admin enrollment, 0 for anything else. */
  function Rank(t: string): nat {
    if t == INSCRITO_POR_ADMIN then 1 else 0
  }

  /** Promotion is one-way: it never lowers the rank, it never leaves a public
      request public, and a second edit changes nothing more. */
  lemma PromoteNeverDemotes(t: string)
    ensures Rank(t) <= Rank(Promote(t))
    ensures !IsPublicRequest(Promote(t))
    ensures Promote(Promote(t)) == Promote(t)
    ensures Promote(t) == INSCRITO_POR_ADMIN <==> IsPublicRequest(t) || t == INSCRITO_POR_ADMIN
  {
  }

  /** Stored rows are keyed by their own id. */
  ghost predicate KeyedById(m: map<nat, Alumno>) {
    forall id :: id in m ==> m[id].id == id
  }

  /** Every stored age is an INTEGER value. */
  ghost predicate AgesFit(m: map<nat, Alumno>) {
    forall id :: id in m ==> FitsInteger(m[id].edad)
  }

  /** The id SQLite gives a new row of a table whose ids are `keys`: one more
      than the largest, or 1 for an empty table. */
  predicate IsNextRowId(keys: set<nat>, id: nat) {
    1 <= id && (forall k :: k in keys ==> k < id) && (id == 1 || id - 1 in keys)
  }

  /** The next row id is determined by the keys, and is a key not yet in use. */
  lemma NextRowIdUnique(keys: set<nat>, a: nat, b: nat)
    requires IsNextRowId(keys, a) && IsNextRowId(keys, b)
    ensures a == b && a !in keys
  {
  }

  /** In a table keyed by id every row is a distinct value, so there are as many
      rows as keys. */
  lemma {:induction false} RowCount(m: map<nat, Alumno>)
    requires KeyedById(m)
    ensures |m.Values| == |m|
    decreases |m|
  {
    if m != map[] {
      var k :| k in m;
      var rest := m - {k};
      assert KeyedById(rest);
      RowCount(rest);
      assert m.Values == rest.Values + {m[k]} by {
        forall v | v in m.Values ensures v in rest.Values || v == m[k] {
          var j :| j in m && m[j] == v;
          if j != k { assert j in rest; assert rest[j] == v; }
        }
      }
      forall j | j in rest ensures rest[j] != m[k] {
        assert rest[j].id == j;
      }
      assert rest.Keys == m.Keys - {k};
    }
  }
}
