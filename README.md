# Tohally academy: enrollment records and admin login, modelled in Dafny

The Tohally website is a Flask application for a football academy. Its state is
two tables: `usuarios` (administrator accounts, bcrypt password hashes) and
`alumnos` (one row per pre-registration, inquiry or admin enrollment). This
project models the request handlers that read and write that state:

- the public contact form `/contacto`. It stores a pre-registration when the
  request has an `edad` key and an inquiry otherwise.
- the login flow `/login` and `/logout`, with the password check as a parameter.
- the admin enrollment form `/inscribir[/<id>]`. It derives an age from the
  birth date, falling back to the old age or 0. It then creates a row or edits
  one, and an edit promotes a public request to `'Inscrito por Admin'`.
- the management list `/movimiento`, sorted by name.
- the delete handler `/eliminar_alumno/<id>`.
- the admin-if-absent bootstrap `init_db_and_admin`.

Layout, one module per file:

| file | module | contents |
|---|---|---|
| wrappers.dfy | Wrappers | `Option` |
| dates.dfy | Dates | calendar validity of a parsed birth date, the age formula and its whole-years reading |
| records.dfy | Records | the `Alumno` row, request-type constants, promotion, INSERT with NOT NULL and defaults, SQLite's next row id |
| intake.dfy | Intake | the contact-form classifier |
| enrollment.dfy | Enrollment | full name, age with fallback, creation draft, edit |
| listing.dfy | Listing | name order (SQLite BINARY collation), insertion by name |
| auth.dfy | Auth | `Usuario`, lookup by email, the login decision |
| app.dfy | App | class `Academy`: the two tables and the session's user id, one method per handler |

The clock (`date.today()`, `CURRENT_TIMESTAMP`), the bcrypt check and the
database's commit outcome are parameters. A commit the database refuses is
`commitOk = false`: it rolls back and leaves the tables as they were. A form
field read with `request.form.get` is an `Option<string>`, with `None` for a
key the request does not carry.

Some points of `tohally_app.py` that the model follows:

- The age is not clamped. A birth date after today gives a negative age
  (`Dates.AgeNegativeIffFutureBirth`); for birth 2024-06-15 and today
  2024-06-14 the age is -1 (`Dates.AgeExamples`).
- An id of 0 selects creation, not edit, because `if alumno_id:` treats 0 as
  false (`App.EditTarget`).
- An inquiry's category is `"Consulta"`.
- Users are created only by `init_db_and_admin`, which looks the email up
  first: a second run finds the account and adds nothing
  (`App.AdminCreatedOnce`).
- SQLite's INTEGER is 64 bits. An `edad` beyond that range makes the INSERT or
  UPDATE raise, which the handler's `except` turns into a failed save; a route
  id beyond it makes `get_or_404` raise outside any `try`, an HTTP 500
  (`Records.FitsInteger`).

Two column details follow SQLAlchemy's ORM. An INSERT leaves out attributes
whose value is `None`. So an absent `categoria` gets the column default `'N/A'`,
while an absent `nombre` or `contacto` breaks NOT NULL and the commit fails. An
edit that assigns `None` writes NULL: to `categoria` that is allowed, to
`contacto` it fails the commit.

## Model

| member | source | states |
|---|---|---|
| Dates.ValidDate | tohally_app.py:269 | the calendar check behind `strptime(...).date()`: years 1..9999, months 1..12, a day that exists in the month |
| Dates.DaysInMonth | tohally_app.py:269 | month lengths 28..31; 29 exactly for February of a Gregorian leap year |
| Dates.ParseDate | tohally_app.py:269 | the birth date parses iff the lexed year/month/day form a real calendar date in years 1..9999; absent or malformed text never parses |
| Dates.ParseDateExamples | tohally_app.py:269 | Feb 29 parses in 2024 and 2000, not in 2023 or 1900; month 13, year 0 and an absent field fail |
| Dates.AgeOn | tohally_app.py:271 | the derived age is the number of whole years: its anniversary is on or before today and the next anniversary is after today |
| Dates.AnniversariesUpToAge | tohally_app.py:271 | the k-th anniversary is reached iff k <= age, so the whole-years reading fixes the age uniquely |
| Dates.AgeNegativeIffFutureBirth | tohally_app.py:271 | the age is negative exactly when the birth date is after today (no clamping) |
| Dates.AgeMonotoneInToday | tohally_app.py:271 | a later today never gives a smaller age |
| Dates.AgeBetweenValidDates | tohally_app.py:269-271 | between two calendar dates the age lies in -9999..9998 |
| Dates.AgeExamples | tohally_app.py:271 | 1970-01-01 on 2024-06-15 is 54; 2010-06-15 on 2024-06-14 is 13; 2024-06-15 on 2024-06-14 is -1 |
| Records.FitsInteger | tohally_app.py:58-60 | the 64-bit signed range of SQLite's INTEGER columns |
| Records.Storable | tohally_app.py:59-62 | the NOT NULL columns `nombre` and `contacto` are present and the age fits an INTEGER |
| Records.InsertRow | tohally_app.py:56-64 | an INSERT succeeds iff the draft is `Storable`; the row keeps the given id, timestamp, fields and type; `categoria` is never NULL and defaults to 'N/A' |
| Records.IsPublicRequest | tohally_app.py:296 | the request types the public form writes: 'Pre-Inscripción' and 'Sugerencia/Consulta' |
| Records.Promote | tohally_app.py:295-297 | 'Pre-Inscripción' and 'Sugerencia/Consulta' become 'Inscrito por Admin'; every other type is kept |
| Records.PromoteNeverDemotes | tohally_app.py:295-297 | promotion never lowers the rank, never leaves a public type, is idempotent, and yields 'Inscrito por Admin' iff the type was public or already that |
| Records.NextRowIdUnique | tohally_app.py:58 | the next row id (max + 1, or 1 when empty) is determined by the keys and is not in use |
| Records.RowCount | tohally_app.py:240 | a table keyed by row id has as many distinct rows as keys |
| Intake.IntakeDraft | tohally_app.py:185-214 | the type is 'Pre-Inscripción' iff the form has an `edad` key, else 'Sugerencia/Consulta'; pre-registration: age = parsed `edad` or 0, category defaults to 'N/A', contact as sent; inquiry: age 0, category "Consulta", contact "Email: {email}. Mensaje: {mensaje}" with defaults 'N/A' / 'Sin mensaje' |
| Intake.IntakeStorableIff | tohally_app.py:208-218 | a submission can be stored iff a name was sent and, for a pre-registration, a contact was sent and a numeric `edad` fits an INTEGER |
| Intake.IntakeAgeOverflowFails | tohally_app.py:190-223 | an `edad` of 10^20 parses but cannot be stored, so the request fails |
| Intake.InquiryContact | tohally_app.py:203 | the inquiry contact holds the email after "Email: " and ends with the message |
| Intake.InquiryContactNotInjective | tohally_app.py:203 | an email that contains ". Mensaje: " makes two different submissions give the same contact text |
| Intake.IntakeScenarios | tohally_app.py:188-206 | `edad=15`, `categoria="Sub-15"` gives a pre-registration aged 15; email + message without `edad` gives an inquiry with age 0, "Consulta", and both texts in the contact |
| Enrollment.FullName | tohally_app.py:261 | the full name is first name, one space, last name; a missing part renders as "None" |
| Enrollment.AgeFromForm | tohally_app.py:266-275 | a parsable birth date gives the age on today with no warning; otherwise the warning is raised and the age is the edited row's age, or 0 when creating |
| Enrollment.CreateDraft | tohally_app.py:278-287 | a created row is 'Inscrito por Admin' with the full name, the fallback-0 age, the given category and guardian contact |
| Enrollment.CreateStorableIff | tohally_app.py:278-287 | a creation can be stored iff the guardian contact was sent and the age fits an INTEGER; for a calendar today only the contact matters |
| Enrollment.ApplyEdit | tohally_app.py:289-297 | an edit succeeds iff a contact was sent and the new age fits an INTEGER; it overwrites exactly name, age, category and contact, promotes the type, and keeps id and `fecha_solicitud` |
| Enrollment.EditStorableIff | tohally_app.py:289-302 | for a stored row and a calendar today, an edit fails only for a missing guardian contact |
| Enrollment.EditPromotesAndKeepsAge | tohally_app.py:272-297 | after an edit a public request is 'Inscrito por Admin', an admin enrollment stays one, other types are kept, the rank never drops; a bad birth date keeps the old age |
| Enrollment.EditIdempotent | tohally_app.py:289-297 | repeating an edit with the same form changes nothing more |
| Listing.NameLe | tohally_app.py:240 | the `ORDER BY nombre` comparison: character by character in code-point order, a proper prefix first |
| Listing.NameLeReflexive | tohally_app.py:240 | the name order is reflexive |
| Listing.NameLeAntisymmetric | tohally_app.py:240 | names that sort both ways are equal |
| Listing.NameLeTransitive | tohally_app.py:240 | the name order is transitive |
| Listing.NameLeTotal | tohally_app.py:240 | any two names are comparable |
| Listing.InsertByName | tohally_app.py:240 | inserting a row into a name-sorted list keeps it sorted and adds exactly that row |
| Listing.SortedDistinctStrict | tohally_app.py:240 | in a sorted list, rows with different names are strictly ascending |
| Listing.ListOrderExample | tohally_app.py:240 | rows named Zoe, Ana, Mateo can only be listed as Ana, Mateo, Zoe |
| Auth.UniqueCorreos | tohally_app.py:52 | the unique constraint on `correo` |
| Auth.FirstWithCorreo | tohally_app.py:85 | finds the first user with the email, or reports that none has it; an absent email matches no one |
| Auth.NextUserId | tohally_app.py:348-357 | the new user's id follows `IsNextRowId` over the user ids: max + 1, or 1 when empty |
| Auth.LoginTarget | tohally_app.py:93-94 | redirect to `next` iff it is present and non-empty, else home |
| Auth.LoginDecision | tohally_app.py:77-99 | authenticated: home with no check; GET: the form; POST: either a welcome or bad credentials, and a welcome names a stored user with that email whose hash verifies, redirecting to `LoginTarget(next)` |
| Auth.LoginSucceedsIff | tohally_app.py:85-94 | with unique emails, login succeeds iff some user has the email and the password verifies against its hash, and the welcome is for that user |
| Auth.LoginNeedsUniqueCorreos | tohally_app.py:52 | without the unique constraint only the first account with an email is tried |
| App.Truthy | tohally_app.py:346 | a configuration value Python treats as true: set and non-empty |
| App.EditTarget | tohally_app.py:247-256 | edit mode iff an id is given and it is not 0 |
| App.Academy.constructor | tohally_app.py:339-343 | empty tables and no session |
| App.Academy.Login | tohally_app.py:76-99 | the answer is `LoginDecision` on the current session; a welcome binds the session to that user; the tables do not change |
| App.Academy.Logout | tohally_app.py:101-106 | without a session: redirect to login; with one: it ends; the tables do not change |
| App.Academy.NextAlumnoId | tohally_app.py:58 | the id SQLite gives a new row: max + 1, or 1 when empty |
| App.Academy.Contacto | tohally_app.py:182-226 | GET changes nothing; a POST is sent iff the submission is storable (NOT NULL columns filled, age within INTEGER range) and the commit succeeds, and it then adds exactly the classified row under the next id; otherwise nothing changes |
| App.Academy.Movimiento | tohally_app.py:235-242 | needs a session; lists every stored row exactly once (a permutation of the table) in non-decreasing name order |
| App.Academy.Inscribir | tohally_app.py:247-314 | needs a session; an edit id beyond the INTEGER range is a server error and an unknown one is not-found; GET shows the form (with the row when editing); a creation adds exactly one 'Inscrito por Admin' row under the next id; an edit replaces exactly that row with `ApplyEdit`; a failed commit leaves the table as it was; the date warning is reported either way |
| App.Academy.Eliminar | tohally_app.py:318-332 | needs a session; an id beyond the INTEGER range is a server error; an unknown id is not-found with the table unchanged; otherwise exactly that row is removed (one fewer row) or, if the commit fails, nothing changes |
| App.Academy.InitDbAndAdmin | tohally_app.py:339-365 | without both admin email and password: nothing; an existing account with that email: nothing; otherwise the admin account is appended with the next id, default name 'Administrador' and role 'admin', unless the commit fails |
| App.AdminCreatedOnce | tohally_app.py:346-363 | a second start-up with the same configuration finds the account: exactly one admin account |
| App.PreRegistrationThenEdit | tohally_app.py:289-297 | a public pre-registration becomes row 1, and after the admin's edit it is 'Inscrito por Admin' with the new name and its original timestamp |

## Left out

- Flask routing, templates, `redirect`/`url_for`, and the flash message texts. Responses are tags; a flash that names a student carries the name.
- The static pages (`home`, `nosotros`, `servicios`, `noticias`, `galeria`) and their fixed news lists: static content with no state.
- The SQLAlchemy/SQLite machinery, the database path and folder creation. The tables are a map and a sequence, and a commit's outcome is the `commitOk` flag.
- SQLite's `String(n)` lengths are not modelled: SQLite does not enforce them.
- A new row id when the largest id is 2^63-1 is not modelled. SQLite then picks a random unused id.
- The edit changes the ORM object in place and then commits. The model replaces the map entry instead, which is the same committed state.
- The lexing rules of `strptime('%Y-%m-%d')` and of Python's `int()` are not modelled. Each is a datatype of outcomes: absent, malformed, or the parsed fields or number. Calendar validity is modelled.
- bcrypt hashing and verification are foreign code. Verification is a parameter `(hash, password) -> bool`, and the stored hash is an input.
- A login POST without a password field is not modelled (bcrypt raises there). The password is a string.
- Flask-Login's session cookie and `load_user` are not modelled. The session is the `currentUser` id option. Users are never deleted here, so a stale session id cannot arise.
- The `next` argument that `@login_required` adds to its login redirect is not modelled. A protected handler only answers "needs login".
- The clock is a parameter: `today` for the age and `now` for `fecha_solicitud`.
- Listing.InsertByName and App.Academy.Movimiento: rows with equal names come in an unspecified order, as `ORDER BY nombre` does not fix one either.
- Concurrent requests are not modelled. Each method is one request.
- `static/js/main.js` is browser UI. `prueba.py` only prints table names. `create_admin.py` repeats the create-if-absent step of `init_db_and_admin` from other environment variables and without a failure branch.
