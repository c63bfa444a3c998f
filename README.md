# SistemaHospital, modelled in Dafny

SistemaHospital is a small hospital back office. It has an Express back end and
a browser page. The patient controller and the triggers are written for SQLite,
and the schema in `config/init-db.js` is SQLite's. The generic CRUD controller
sends T-SQL for SQL Server instead: `EXEC sp_…` with `@name` parameters, and
`SELECT TOP 1 … ORDER BY ID DESC`. `config/database.js` loads the `mssql` driver. This project models and proves properties of the
parts of it that hold decisions:

- **Generic CRUD controller** (`crudController.js`):
  - the case-sensitive whitelist of three tables (`Pacientes`, `Doctores`, `Citas`);
  - the projection of a request body onto the allowed columns;
  - the SQL text built from the registry: column lists, `@pN` placeholders, `SET k=@pN` items, and procedure argument lists;
  - the rule "try the stored procedure, fall back to raw SQL" for list, get, create, update and delete;
  - the 400/404/201 answers.
- **Patient controller** (`pacientesController.js`): `Estado` is a live/deleted flag. Reads filter on it, delete only clears it, and update overwrites the four data columns.
- **Booking rule and triggers** (`config/triggers.js`):
  - the `BEFORE INSERT` trigger that refuses a second appointment for the same doctor, date and hour;
  - the `AFTER UPDATE` trigger that audits a patient's 1→0 `Estado` transition;
  - `crearCitaConValidacion`, which checks the slot and then the patient before inserting.
- **Table browser** (`routes/tablas.js`): the registry of six tables, its listing, and the guarded `GET /:tabla`.
- **Browser page** (`public/js/script.js`):
  - `renderTableHtml`;
  - the form field lists and the input type of each field;
  - `collectForm`'s coercion of form text into a request body;
  - the empty-id guards of update and delete.

The database is an in-memory store, `Store.Database`. It holds, per table, a map
from the integer key to the row's other columns, a per-table auto-increment
counter, and a flag saying whether stored procedures are installed. The key
column is `ID`, except `id_seguro` in `Seguros`. `Insert`, `Update` and `Delete`
apply the NOT NULL and DEFAULT clauses and the two triggers, as SQLite would.

The store mixes the two engines. It gives the CRUD controller's statements their
SQL Server meaning, and runs them against the SQLite schema and triggers. The
columns come from `config/init-db.js`. `AuditoriaEliminar` is not declared there,
so its columns are the ones the audit trigger inserts into (`config/triggers.js`
line 10).

A stored procedure is modelled by its outcome only. The caller passes
`proc: Option<seq<Object>>`: `None` means the procedure call raised, and
`Some(rows)` is what it answered when procedures exist. A handler that only reads
returns the statements it sends, `issued`, as an abstract syntax tree. That way
"identifiers only come from the registry" can be stated about every statement:
`Crud.FromRegistry` holds for every element of `issued`.

Modules, one file each:

| file | module | models |
|---|---|---|
| js.dfy | `Js` | JavaScript values, objects as ordered entries, `Array.join`, `String(n)`, JSON answers |
| triggers.dfy | `TriggerRules` | the conditions of the two SQLite triggers |
| store.dfy | `Store` | the database: schema, defaults, NOT NULL, triggers, `SELECT` |
| crud.dfy | `Crud` | `crudController.js` |
| pacientes.dfy | `Pacientes` | `pacientesController.js` |
| booking.dfy | `Booking` | `crearCitaConValidacion` |
| tablas.dfy | `Tablas` | `routes/tablas.js` |
| frontend.dfy | `Frontend` | `public/js/script.js` |

Where the code and the system's design description disagree, the model follows the code:

- `update` never answers 404. A missing row gives `200` with no `data`. `remove` also never answers 404.
- A CRUD failure that survives the fallback answers 400, not 500.
- The patient `update` writes all four columns. A field missing from the body is written as NULL.

## Model

| member | source | states |
|---|---|---|
| Crud.Config | Backend/src/controllers/crudController.js:4-8 | exactly the three tables are registered, each with primary key `ID`, and no registered column is `ID` or `Estado` |
| Crud.TableNamesAreTheKeys | Backend/src/controllers/crudController.js:4-12 | the names listed in the rejection message are exactly the registered tables |
| Crud.ValidarTabla | Backend/src/controllers/crudController.js:10-15 | passes exactly the three registered names (case-sensitive); otherwise fails with "Tabla no permitida. Usa: Pacientes, Doctores, Citas" |
| Crud.ValidarTablaAsWritten | Backend/src/controllers/crudController.js:10-15 | the guard as written also passes every name inherited from `Object.prototype` |
| Crud.InheritedNamePassesAsWritten | Backend/src/controllers/crudController.js:10-15 | "constructor" passes the guard as written and reaches SQL text as `EXEC sp_constructor_ReadAll`; the corrected guard refuses it |
| Crud.Projection | Backend/src/controllers/crudController.js:16-21 | keeps at most one entry per registered column, and each kept entry is a registered column with the body's own value |
| Crud.ProjectionComplete | Backend/src/controllers/crudController.js:19 | every registered column the body defines is kept, with the body's value |
| Crud.ProjectionEmpty | Backend/src/controllers/crudController.js:54-56 | the projection is empty (so create answers "Sin datos para crear") exactly when the body defines none of the registered columns |
| Crud.OriginsMatch | Backend/src/controllers/crudController.js:19 | entry i of the projection is the registered column at the i-th increasing position that the body defines |
| Crud.ProjectionInCamposOrder | Backend/src/controllers/crudController.js:16-21 | the kept columns appear in registry order |
| Crud.ProjectionDistinct | Backend/src/controllers/crudController.js:16-21 | the kept columns are distinct when the registry's are |
| Crud.BuildParams | Backend/src/controllers/crudController.js:16-21 | the loop that fills `params` yields the projection |
| Crud.ToRecord | Backend/src/controllers/crudController.js:64-65 | the columns an INSERT or UPDATE names, each with its bound value |
| Crud.ParamNamesDistinct | Backend/src/controllers/crudController.js:63-64 | placeholders `p0`, `p1`, … never collide |
| Crud.Holders | Backend/src/controllers/crudController.js:63 | one placeholder `@pi` per key, at position i |
| Crud.SetItems | Backend/src/controllers/crudController.js:83 | item i is `keys[i]=@pi` |
| Crud.SpArgs | Backend/src/controllers/crudController.js:59 | item i is `@k=@k` for the i-th name |
| Crud.NamedAlignsWithPlaceholders | Backend/src/controllers/crudController.js:62-65 | `named` binds `pi` to the value of `keys[i]`, with distinct names matching the placeholders and SET items position by position |
| Crud.NamedParams | Backend/src/controllers/crudController.js:64 | the loop that fills `named` binds `p0..p(n-1)` to the key values in order |
| Crud.InsertTextExample | Backend/src/controllers/crudController.js:62-65 | the fallback INSERT text for one column is `INSERT INTO Citas (fecha) VALUES (@p0);` |
| Crud.UpdateTextExample | Backend/src/controllers/crudController.js:83-85 | the fallback UPDATE text for one column is `UPDATE Citas SET fecha=@p0 WHERE ID=@id` |
| Crud.SpArgsExample | Backend/src/controllers/crudController.js:80 | the procedure arguments of an update are `@id=@id, @fecha=@fecha` |
| Crud.ExecTextExample | Backend/src/controllers/crudController.js:80-81 | the update procedure call is `EXEC sp_Citas_Update @id=@id, @fecha=@fecha` |
| Crud.ReadCols | Backend/src/controllers/crudController.js:30 | the fallback reads the primary key and then the registered columns in order |
| Crud.ReadAllHandler | Backend/src/controllers/crudController.js:23-35 | an unknown table gets 400 and nothing is sent; the procedure's rows are answered when it runs; otherwise the fallback `SELECT` runs once and answers every row; all identifiers come from the registry |
| Crud.ReadByIdHandler | Backend/src/controllers/crudController.js:37-49 | 404 "No encontrado" on zero rows, otherwise only the first row; the fallback runs once when the procedure raises; 400 for an unknown table |
| Crud.ProjectionFromRegistry | Backend/src/controllers/crudController.js:25-31 | every statement built from a projected body names only registered tables and columns, and never `Estado` |
| Crud.CreateStoresWhatItAnswers | Backend/src/controllers/crudController.js:61-68 | a failed create changes nothing and answers 400; a successful one answers 201 with the new row as stored, under a fresh id, holding each sent value, and keeps every old row |
| Crud.CreateSucceedsIffAccepted | Backend/src/controllers/crudController.js:61-69 | the create succeeds exactly when the table exists and the row passes NOT NULL and the appointment trigger |
| Crud.CreateFallback | Backend/src/controllers/crudController.js:61-67 | the INSERT with placeholders aligned to the keys, then the read-back of the greatest id, leave the store as `InsertOutcome` says; the id counter advances for that table on success only; the clock is untouched |
| Crud.CreateHandler | Backend/src/controllers/crudController.js:51-70 | 400 for an unknown table or an empty projection ("Sin datos para crear") with nothing sent; 201 with the procedure's first row; otherwise the raw-SQL outcome, with the id counter advanced only on success; the clock is untouched; all identifiers from the registry |
| Crud.UpdateNeverNotFound | Backend/src/controllers/crudController.js:82-89 | an update answers 200 or 400, never 404; a missing row gives 200 without data; a failure changes nothing |
| Crud.UpdateWritesWhatItAnswers | Backend/src/controllers/crudController.js:83-88 | a successful update writes each sent value, keeps the row's other columns, and answers the row as stored |
| Crud.UpdateKeepsOtherRows | Backend/src/controllers/crudController.js:85 | `WHERE ID=@id`: no other row of any table changes and no row appears or disappears |
| Crud.UpdateIdempotent | Backend/src/controllers/crudController.js:83-85 | sending the same update twice leaves the store as sending it once |
| Crud.UpdateFallback | Backend/src/controllers/crudController.js:82-87 | the UPDATE with `named` plus `id`, then `SELECT * … WHERE ID=@id`, leave the store as `UpdateOutcome` says; the id counter and the clock are untouched |
| Crud.UpdateHandler | Backend/src/controllers/crudController.js:72-90 | 400 for an unknown table or an empty projection ("Sin datos para actualizar"); the procedure gets `@id` first; otherwise the raw-SQL outcome; the id counter and the clock are untouched |
| Crud.DeleteRemovesOnlyThatRow | Backend/src/controllers/crudController.js:95-97 | the row is gone, every other row stays, and removing it again changes nothing and gives the same answer |
| Crud.RemoveHandler | Backend/src/controllers/crudController.js:92-99 | "Eliminado" whether or not the row existed; the raw `DELETE` runs only when the procedure raises; 400 for an unknown table; the id counter and the clock are untouched |
| Pacientes.Given | Backend/src/controllers/pacientesController.js:7-10 | the four columns written, each bound to the body's value, with `undefined` as NULL |
| Pacientes.ActiveIds | Backend/src/controllers/pacientesController.js:28 | `WHERE Estado = 1`: exactly the active ids, in order |
| Pacientes.GetAll | Backend/src/controllers/pacientesController.js:26-40 | answers exactly the rows with `Estado = 1`, as `SELECT *` returns them, one answer row per active patient |
| Pacientes.GetById | Backend/src/controllers/pacientesController.js:42-63 | 404 "Paciente no encontrado" unless the row exists and is active; otherwise `data` is the one-row array |
| Pacientes.Create | Backend/src/controllers/pacientesController.js:5-24 | 201 with `ID` the new id and the sent fields; the stored row takes `Estado` 1 and the counter moves on by one; a missing `nombre` gives 500 "Error al crear paciente" and no change |
| Pacientes.Update | Backend/src/controllers/pacientesController.js:65-85 | success even when no row matched, echoing the id as text; a matching row gets all four columns overwritten and nothing else changes |
| Pacientes.Delete | Backend/src/controllers/pacientesController.js:87-102 | only `Estado` becomes 0, so the row stays; success for a missing id; the audit row is added exactly on a 1→0 transition |
| Pacientes.CreatedPatientIsActive | Backend/src/controllers/pacientesController.js:8-11 | a newly created patient is active and holds the sent fields |
| Pacientes.SoftDeleteHides | Backend/src/controllers/pacientesController.js:28-45 | after a delete the patient is missing from the active list and nothing else leaves it |
| Pacientes.SoftDeleteIdempotent | Backend/src/controllers/pacientesController.js:90 | deleting twice equals deleting once, and the second delete writes no audit row |
| Pacientes.UpdateOverwritesAllFields | Backend/src/controllers/pacientesController.js:69-72 | update overwrites the four fields without touching `Estado`, so it never revives or hides a patient |
| Pacientes.UpdateKeepsStatus | Backend/src/controllers/pacientesController.js:69-72 | an update never fires the audit trigger, and is refused exactly when the body leaves `nombre` out |
| TriggerRules.RejectsIffSlotTaken | Backend/src/config/triggers.js:19-31 | the insert trigger refuses exactly when a stored appointment has the same doctor, date and hour (SQL `=`) |
| TriggerRules.NullSlotNeverRejected | Backend/src/config/triggers.js:23-28 | a NULL doctor, date or hour never matches, so such an insert is never refused |
| TriggerRules.AuditRecord | Backend/src/config/triggers.js:10-13 | the audit row holds table "Pacientes", the row's id, the timestamp, and text that is NULL when `nombre` or `edad` is |
| TriggerRules.AuditTextExample | Backend/src/config/triggers.js:12 | the audit text reads "Nombre: Ana, Edad: 30" |
| TriggerRules.AuditOnlyOnTransition | Backend/src/config/triggers.js:6-8 | the audit trigger fires only when `Estado` goes from 1 to 0 |
| Store.Completed | Backend/src/config/init-db.js:19-27 | an INSERT stores the given columns and the schema defaults for the rest |
| Store.InsertCheck | Backend/src/config/triggers.js:19-31 | an insert is refused exactly for a NULL `nombre` or a taken appointment slot |
| Store.GreatestId | Backend/src/controllers/crudController.js:66 | the id `ORDER BY ID DESC` puts first: in the set and at least every other id |
| Store.Database.SelectAll | Backend/src/routes/tablas.js:66 | one answer row per stored row: every stored row appears, projected, and nothing else does |
| Store.Database.Insert | Backend/src/config/triggers.js:19-31 | a refused insert changes nothing; an accepted one adds one row under the next id |
| Store.Database.Update | Backend/src/config/triggers.js:4-15 | the row takes the changes; an audit row is added exactly when the trigger fires |
| Store.Database.Delete | Backend/src/controllers/crudController.js:95-97 | the row with that id is removed from its table, every other row stays, and the id counter is untouched |
| Booking.CrearCitaConValidacion | Backend/src/config/triggers.js:50-91 | a taken slot gives "El doctor ya tiene una cita a esa hora", then an inactive patient gives "Paciente inválido", with no row added in either case; otherwise exactly one appointment is added with the four values and `cita_id` is its id; every failure is returned, never thrown |
| Booking.TriggerKeepsNoDoubleBooking | Backend/src/config/triggers.js:19-31 | every insert the trigger lets through keeps any two appointments in different slots (the trigger runs `BEFORE INSERT` only, so updates are not covered) |
| Booking.BookingKeepsNoDoubleBooking | Backend/src/config/triggers.js:54-61 | the booking's own check is the trigger's test, so it too keeps any two appointments in different slots |
| Booking.CrudCitaNeverRefused | Backend/src/controllers/crudController.js:7 | an appointment created through the generic CRUD has no hour, so the trigger never refuses it |
| Booking.NullHourNeverTaken | Backend/src/config/triggers.js:54-57 | a booking without an hour never finds its slot taken |
| Tablas.Find | Backend/src/routes/tablas.js:58-65 | finds an entry exactly when the key is listed, and the one listed under it |
| Tablas.ListTablas | Backend/src/routes/tablas.js:39-46 | one entry per registry key, in registry order, with its `nombre`, `descripcion` and `columnas` |
| Tablas.ListedNames | Backend/src/routes/tablas.js:5-36 | six tables are listed, from `Pacientes` to `AuditoriaEliminar` |
| Tablas.RegistryWellFormed | Backend/src/routes/tablas.js:5-36 | each key equals its entry's `nombre`, every `columnas` starts with `ID`, and no key repeats |
| Tablas.LookupFindsListedEntry | Backend/src/routes/tablas.js:65 | each key finds exactly its own entry |
| Tablas.CrudTablesRegistered | Backend/src/routes/tablas.js:5-20 | the three CRUD tables are registered here with `ID` followed by the CRUD columns |
| Tablas.IssuedAsWritten | Backend/src/routes/tablas.js:58-66 | as written, at most one statement, sent exactly for registry keys and for inherited names |
| Tablas.Issued | Backend/src/routes/tablas.js:58-66 | with the own-key guard, at most one statement, sent exactly for registry keys |
| Tablas.InheritedNameReachesSql | Backend/src/routes/tablas.js:58-66 | as written, "constructor" reaches `SELECT * FROM constructor`; with the own-key guard it is refused |
| Tablas.OnlyRegistryKeysReachSql | Backend/src/routes/tablas.js:58-66 | only a registry key ever appears in the SQL text |
| Tablas.GetTabla | Backend/src/routes/tablas.js:54-79 | 400 "Tabla no permitida" exactly for unregistered names; otherwise the registry's `nombre`, `descripcion` and `columnas` with every row as `SELECT *` returns it (for `Seguros`, keyed by `id_seguro`) |
| Frontend.RenderTableHtml | Backend/public/js/script.js:5-18 | "<p>No hay resultados</p>" for null or empty input; otherwise the markup of the table pieces, built column by column and row by row |
| Frontend.TableShape | Backend/public/js/script.js:7-15 | one `<th>` per key of the first row, one `<tr>` per row plus the header row, and `cols.length` `<td>` per row |
| Frontend.TableFrame | Backend/public/js/script.js:8-16 | the table opens with `<table class="table"><thead><tr>` and closes with `</tbody></table>` |
| Frontend.TableText | Backend/public/js/script.js:8-16 | the markup is the header cells, then the rows, between the fixed opening and closing tags |
| Frontend.NullRendersEmpty | Backend/public/js/script.js:13 | a NULL or missing value renders as an empty cell |
| Frontend.CrudFieldsMatchServer | Backend/public/js/script.js:77-81 | the page's field lists are exactly the server's registered columns; other tables get none, except names every object inherits (such as "constructor"), for which the lookup finds something without `forEach` and the page throws |
| Frontend.InputType | Backend/public/js/script.js:87 | "number" exactly for numeric fields (containing `edad`, `telefono` or `_id`, or ending in `id`, ignoring case), "datetime-local" for `fecha`, "text" otherwise |
| Frontend.NumericFormFields | Backend/public/js/script.js:87 | `edad`, `telefono`, `paciente_id` and `doctor_id` get number inputs |
| Frontend.DateFormField | Backend/public/js/script.js:87 | `fecha` gets a date-and-time input |
| Frontend.TextFormFields | Backend/public/js/script.js:87 | `nombre` and `direccion` get text inputs |
| Frontend.ParseInt | Backend/public/js/script.js:99 | `Number(v)` yields an integer exactly for digit strings with an optional '-' |
| Frontend.ParseIntRoundTrip | Backend/public/js/script.js:99 | reading back an integer's text gives the integer |
| Frontend.Coerce | Backend/public/js/script.js:98-100 | empty text becomes NULL; numbers arrive only for numeric fields and never as 0; other fields keep their text |
| Frontend.CoerceFalsyToNull | Backend/public/js/script.js:99-100 | '', 0 and NaN are all sent as NULL; a nonzero integer arrives as that number |
| Frontend.FormBody | Backend/public/js/script.js:93-103 | every entry is a field of the table that has an input, holding its coerced value |
| Frontend.CollectForm | Backend/public/js/script.js:93-103 | throws (`None`) exactly for inherited names; otherwise the loop that fills `o` yields `FormBody` over the table's field list: its keys are the fields that have an input, in the list's order, and every such field is sent with its coerced value |
| Frontend.FormBodyComplete | Backend/public/js/script.js:96-101 | every field of the list that has an input appears in the body with its coerced value |
| Frontend.FormBodyOrder | Backend/public/js/script.js:96-101 | the body's keys are exactly the listed fields that have an input, in the list's order (against a front-to-back reference definition) |
| Frontend.FormBodyKeys | Backend/public/js/script.js:95 | the body names only the table's fields; an unknown table that is not an inherited name gives `{}` |
| Frontend.ServerKeepsEveryFormField | Backend/public/js/script.js:93-103 | every field the page sends survives the server's projection |
| Frontend.CrudUpdate | Backend/public/js/script.js:176-191 | an inherited table name throws before the id is checked; otherwise no request and "Ingresa ID para actualizar" exactly when the id is empty, and a PUT of the collected body to `/crud/<tabla>/<id>` when it is not |
| Frontend.CrudDelete | Backend/public/js/script.js:193-205 | no request and "Ingresa ID para eliminar" exactly when the id is empty; otherwise a DELETE of `/crud/<tabla>/<id>` |
| Frontend.OutcomeMessage | Backend/public/js/script.js:188 | the success text on success; otherwise "✗ " followed by the error, or by "Error" when there is none |
| Js.IntToString | Backend/src/controllers/pacientesController.js:76 | a number's text starts with '-' exactly when it is negative |

## Left out

- Stored-procedure bodies are not in the repository. A procedure is modelled only by whether it raised and what it answered. A procedure call is modelled as writing nothing to the store: `Crud.CreateHandler`, `Crud.UpdateHandler` and `Crud.RemoveHandler` ensure `unchanged(db)` on their procedure branches, although a real `sp_<tabla>_Create`, `_Update` or `_Delete` would write.
- Store.ErrorMessage: gives the engine's error text only; the `SQLITE_ERROR: ` or `SQLITE_CONSTRAINT: ` prefix that the sqlite3 driver puts in front of it in `error.message`, and so in the 400 replies, is not modelled.
- Network, HTTP routing, Express middleware, `fetch`, the DOM and the timestamp `datetime('now')` are left out. The timestamp is the store's `clock` field.
- The create fallback's `SELECT TOP 1 … ORDER BY ID DESC` is read as "the row with the greatest id". It runs in sequence with the INSERT, and concurrent inserts are not modelled.
- Ids are integers. `Number(id)` on text that is not a number (`NaN`) is not modelled.
- SQLite's column type affinity is not modelled. SQLite stores text such as '2' written into an INTEGER column as the number 2. It also compares a text parameter with an INTEGER column as a number. The model keeps text as text. This affects the text id in `pacientesController.js`, and `TriggerRules.SqlEq` / `TriggerRules.SameSlot` below.
- TriggerRules.SqlEq: `Str("2")` never equals `Num(2)`. So the slot check in `config/triggers.js` (lines 23-28 and 54-57) misses a clash that SQLite would find once affinity turns the text doctor id into a number.
- Booking.ActivePatient: only a numeric `paciente_id` is accepted. SQLite's `WHERE ID = ?` (`config/triggers.js` lines 63-66) would also find the patient for the text '5'. So `Booking.CrearCitaConValidacion` answers "Paciente inválido" for text ids that SQLite accepts.
- `Frontend.ParseInt`: `Number` is modelled only on digit strings with an optional '-'. A leading '+', decimals, exponents, surrounding blanks and hexadecimal text are read as `NaN`, so they are sent as NULL. A number input never yields a leading '+'.
- `Frontend.Cell`: only NULL, integers and text are rendered. Booleans, decimals and nested objects are not.
- `Js.Value`: request bodies, rows and answers hold only NULL, integers and text. Booleans, decimals, arrays and nested objects are not modelled. `Num` is an unbounded integer, whereas a JavaScript number loses precision above 2^53.
- `Booking.NoDoubleBooking` is kept by INSERTs only. The validation trigger in `config/triggers.js` is `BEFORE INSERT`. A `PUT /api/crud/Citas/:id` that moves `doctor_id` or `fecha` onto a taken slot is not refused and breaks the invariant.
- Foreign keys are not enforced, which is SQLite's default. The only constraints modelled are NOT NULL on `nombre` and the two triggers.
- `Seguros`: `config/init-db.js` declares it with the key `id_seguro` and the columns `tipo`, `compañia` and `id_paciente`, and the model stores it that way. The browser's registry lists other column names for it (`ID`, `compañia`, `id_pac`). Those are only labels in the answer.
- `config/audit-table.js` declares `AuditoriaEliminar` for SQL Server with other columns (`id_eliminado`, `fecha_eliminacion`, `usuario`). That script is not part of this model.
- `config/database.js` exports a SQL Server pool whose functions do not match what the controllers call. No single engine runs both controllers. SQLite would reject the CRUD controller's `EXEC` and `TOP 1`. Under SQLite, the create fallback's INSERT would succeed and then `TOP 1` would fail, so create would answer 400 with the row stored. The model instead answers 201, as SQL Server would. The SQL Server setup scripts are not part of this model.
- Request bodies: `Js.Get` reads the first entry with a key, whereas `JSON.parse` keeps the last of duplicate keys. A body with a repeated key is read differently.
- The canned queries (`routes/consultas.js`, `config/views.js`, `routes/triggers.js`), the CSV loaders, and the setup scripts are not part of this model. Their meaning lives in the SQL engine or in the filesystem.
- The first definitions of `crudCreate`, `crudUpdate` and `crudDelete` in `script.js` (lines 105-142) are replaced by the later ones (lines 161-205). Only the later ones are modelled.
- `crudCreate`, `crudList`, `cargarTabla`, `cargarConsulta`, `checkStatus` and `showSection` in `script.js` only move data between `fetch` and the DOM. They are not modelled.

## Findings

| source | as written | input that shows it | evidently intended | confidence | as-written member | corrected member |
|---|---|---|---|---|---|---|
| Backend/src/controllers/crudController.js:10-15 | `!TABLAS_CONFIG[tabla]` also finds names every object inherits, so they pass the whitelist | `GET /api/crud/constructor` passes the guard and sends `EXEC sp_constructor_ReadAll` | only the three registered tables pass | not executed | Crud.InheritedNamePassesAsWritten | Crud.ValidarTabla |
| Backend/src/routes/tablas.js:58-63 | `!tablasConfig[tabla]` lets inherited names through, and they reach the SQL text | `GET /api/tablas/constructor` sends `SELECT * FROM constructor` | only registry keys reach SQL | not executed | Tablas.InheritedNameReachesSql | Tablas.GetTabla |
