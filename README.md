# User service of a FastAPI CRUD application, in Dafny

The application keeps one table, `usuarios`, of user rows (`id`, `nombre`,
`email`, `edad`, `created_at`). Its service class `UsuarioService` offers five
operations on that table: create, list one page, get by id, update and delete.
The one invariant is that no two rows share an email. Create and update check
this before writing. The column is also declared unique.

This project models those five operations and proves what they promise:

- `usuarios.dfy` (module `Usuarios`): the row, the create/update payload, the
  table as `map<int, Usuario>`, and the email-uniqueness predicate.
- `session.dfy` (module `Database`): class `Session`, holding the table and the
  primary-key sequence that the service changes in place.
- `operations.dfy` (module `Operations`): the failures `NotFound` (HTTP 404)
  and `Conflict` (HTTP 400). Also one pure step function per operation, giving
  the table afterwards and the result.
- `usuario_service.dfy` (module `UsuarioService`): the five service methods,
  each taking the session. The three writing methods (create, update, delete)
  change the table in place and keep `Session.Valid()`, which says emails are
  unique and every key came from the sequence. The two reading methods change
  nothing. Each method is proved equal to its step function in `Operations`,
  or, for the listing, to `Pagination.Page`.
- `properties.dfy` (module `Properties`): lemmas about the step functions.
- `pagination.dfy` (module `Pagination`): the offset/limit listing and its lemmas.

Modelling choices:

- The database's `filter(...).first()` lookup becomes "some stored row
  satisfies the condition" (`EmailInUse`, `id in t`).
- `db.add`, `db.delete` and field assignment become updates of the map.
- Raised `HTTPException`s become a `Result` with `NotFound` or `Conflict`.
- New keys come from a counter `Session.nextId`, standing for the
  autoincrement primary key. The properties rely only on the new key being
  fresh.
- `created_at` is set by the database clock. The model passes it in as the
  parameter `now` of `CrearUsuario`.
- Listing returns rows in the database's order, which nothing specifies. The
  model passes that order in as a parameter, `order`, required to list every
  stored key exactly once. No ordering is claimed for a single query. The
  query has no `ORDER BY`, so two page queries may come back in different
  orders; `Pagination.ReorderedPagesCanMissRow` shows that paging can then
  skip a stored row.
- The router accepts only `skip >= 0` and `1 <= limit <= 100`
  (app/routers/usuario_router.py:20-21). These become preconditions of
  `ObtenerUsuarios`.

## Model

| member | source | states |
|---|---|---|
| UsuarioService.CrearUsuario | app/services/usuario_service.py:10-28 | the new table and result are `Create` of the old table under the sequence's next key; a created row gets a key not in the old table; the sequence advances only on success; unique emails are kept |
| UsuarioService.ObtenerUsuarios | app/services/usuario_service.py:31-33 | the result is the offset/limit window of the database's row order; it has at most `limit` rows, each a stored row under its own key; the table is not changed |
| UsuarioService.ObtenerUsuarioPorId | app/services/usuario_service.py:36-44 | the result is `Get` of the table: the stored row, or NotFound; the method changes nothing |
| UsuarioService.ActualizarUsuario | app/services/usuario_service.py:47-67 | the new table and result are `Update` of the old table; unique emails are kept; the key sequence is untouched |
| UsuarioService.EliminarUsuario | app/services/usuario_service.py:70-75 | the new table and result are `Delete` of the old table; unique emails are kept; the key sequence is untouched |
| Properties.CreateConflict | app/services/usuario_service.py:13-18 | create fails with Conflict if and only if some stored row holds the email, and a failed create leaves the table unchanged |
| Properties.CreateAddsOneRow | app/services/usuario_service.py:20-28 | with a free email and a fresh key, create adds exactly one row carrying the payload's name, email and age and the clock's creation time, returns that row, grows the table by one and leaves every existing row unchanged |
| Properties.CreateKeepsEmailsUnique | app/services/usuario_service.py:13-25 | if emails were unique before a create, they still are after it |
| Properties.CreateTwiceSameEmail | app/services/usuario_service.py:13-25 | creating twice with the same email: the first succeeds, the second fails with Conflict, and the table has grown by exactly one row |
| Properties.GetFindsStoredRow | app/services/usuario_service.py:38-44 | get succeeds if and only if the key is stored, returning that row under that key; otherwise it fails with NotFound |
| Properties.UpdateAbsentNotFound | app/services/usuario_service.py:47-49 | update of an absent key fails with NotFound and leaves the table unchanged |
| Properties.DeleteAbsentNotFound | app/services/usuario_service.py:70-72 | delete of an absent key fails with NotFound and leaves the table unchanged |
| Properties.UpdateConflict | app/services/usuario_service.py:52-58 | on a stored row, update fails with Conflict if and only if the email changes to one already stored; the holder is then a different row and the table is unchanged |
| Properties.UpdateConflictIffOtherHolder | app/services/usuario_service.py:52-58 | while emails are unique, update of a stored row fails with Conflict if and only if another row holds the requested email |
| Properties.UpdateSameEmailSucceeds | app/services/usuario_service.py:52-67 | update of a stored row that keeps the row's own email always succeeds |
| Properties.UpdateOverwritesPayload | app/services/usuario_service.py:60-67 | a successful update replaces exactly name, email and age of the target row and returns it; it keeps the key, the creation time, the set of keys and every other row |
| Properties.UpdateKeepsEmailsUnique | app/services/usuario_service.py:52-63 | if emails were unique before an update, they still are after it |
| Properties.DeleteRemovesRow | app/services/usuario_service.py:72-75 | delete of a stored key succeeds and removes exactly that key; the table shrinks by one and every remaining row is unchanged |
| Properties.DeleteThenNotFound | app/services/usuario_service.py:38-43 | after a delete, a get of the same key and a second delete of it both fail with NotFound |
| Properties.DeleteKeepsEmailsUnique | app/services/usuario_service.py:72-74 | if emails were unique before a delete, they still are after it |
| Pagination.PageWindow | app/services/usuario_service.py:31-33 | a page holds min(limit, rows left after skip) rows; each is a stored row under its own key, and no row appears twice |
| Pagination.PagesCoverTable | app/services/usuario_service.py:31-33 | if every page query returns the rows in the same order, paging through with a fixed limit reaches every stored row: the row under a key appears on some page p, the page that skips p * limit rows |
| Pagination.ReorderedPagesCanMissRow | app/services/usuario_service.py:33 | without a common order across page queries, paging can miss a row: for a two-row table, pages 0 and 1 with limit 1, each taken in a valid order of its own, both return key 1 and never key 2 |

## Left out

- Connection setup, the environment variables, and the choice between
  Postgres and a local SQLite file (app/models/db.py). All of it is I/O and
  external drivers.
- The per-request session lifetime (`get_db`) and the health-check query.
- Startup and shutdown hooks, table creation, and the `/` and `/health`
  endpoints (main.py). These are framework wiring and logging.
- HTTP routing and serialisation. The router passes each request to the
  service unchanged, so its only modelled part is the listing bounds.
- Payload validation by the schema library. The payload type already fixes
  the field types.
- `commit` and `refresh`. Each operation is one transaction, and the model
  applies its effect at once.
- Rollback on database errors, and driver failures, are not modelled.
- Concurrency. Two concurrent requests could both pass the email check
  before either writes; in the real program the unique column then rejects
  one of them. A sequential model cannot show this race.
- Key reuse. The model's key sequence only grows, as a Postgres sequence
  does. The SQLite fallback may reuse the largest deleted key. Every property
  here relies only on the new key being fresh, which both provide.
- Integer widths. `id` and `edad` are unbounded integers here, not the
  database's 32-bit `Integer` column. Out-of-range values, which the database
  would reject, are not modelled.
- Pagination.PagesCoverTable: assumes every page query returns the rows in
  the same order. The query at app/services/usuario_service.py:33 has no
  `ORDER BY`, so the database does not guarantee this, and paging can skip
  or repeat rows when the order changes.
- The default arguments `skip = 0` and `limit = 100` of the list operation
  are not modelled: the router always passes both values, so `ObtenerUsuarios`
  takes them as explicit parameters.
- The HTTP status codes (404 for `NotFound`, 400 for `Conflict`) and the
  error messages are only named in comments. The model stops at the error kind.
- Email comparison is exact string equality, as in the code's query. Case
  folding is not modelled.
