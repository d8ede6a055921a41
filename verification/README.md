# mc-telemetry request handlers, modelled in Dafny

mc-telemetry is a small backend that collects usage pings for Minecraft mods. Administrators
register mods with a shared password. Clients report pings for a registered mod. The
statistics endpoints, also behind the password, count pings per mod name, per mod version and
per game version. A CSV export dumps every ping.

The repository holds two revisions of the same Flask application:

- `app.py` is the newer one. Its pings carry a `loader`, its routes live under `/telemetry`,
  and its CSV is semicolon-delimited with six columns.
- `main.py` is the older one. It has no loader, no route prefix and Spanish error texts. It
  groups mod versions by two columns and writes a comma-delimited five-column CSV.

This project models both revisions. The SQLite database becomes two in-memory tables (sequences
of rows) held by a `Database` object:

- The handlers that insert rows (`create_mod`, `receive_telemetry`) are methods that append to
  those tables.
- The three statistics handlers are functions of the tables.
- The export is a method whose loop builds the file row by row, as the source's `for` loop does.

Shared modules:

- `Wrappers`: `Option`.
- `Http`: parsed request bodies and query strings, replies, dates, CSV cells.
- `AccessGate`: the password checks.
- `Registry`: the mods table, its lookups, SQLite's choice of new primary keys, the store
  invariant and the mod-name join.
- `Grouping`: `GROUP BY … COUNT … ORDER BY usage DESC`.

The revisions are `AppService` (app.py) and `MainService` (main.py).

The store invariant has four parts. Primary keys are unique in both tables. `mod_id` is unique.
Every telemetry row's foreign key names an existing mod. Each writing method requires the
invariant and re-establishes it. Every error path leaves both tables unchanged, and a success
appends exactly one row. A statistics result is a *usage report* (`Grouping.IsUsageReport`):
it has one line per key that occurs and no other, each line's usage is that key's row count,
usages do not increase down the list, and they add up to the number of rows grouped. The
report that `Grouping.MostUsed` computes is one such report. `Grouping.ReportsAgree` shows that
two correct reports always hold the same lines, so only the order among equal usages is open,
as in SQL.

Where the code and the design notes of the system disagree, this model follows the code:

- An unset `PASSWORD` does not lock the gate. It makes `None` the secret. A statistics or export
  request with no `password` parameter then passes. A body with `"password": null` passes
  `verify_password`. The contracts of `AccessGate.VerifyPassword` and
  `AccessGate.QueryAuthorized` state this.
- A duplicate mod is refused with status 400, not 409. A wrong password gives 403.
- Telemetry is an event log, one row per ping. No counter is incremented.

The configured secret is a constructor argument. The current date is an argument of
`ReceiveTelemetry`. A JSON body value is either a string or `null`. A `null` in a required
field passes the handler's presence check. The insert then violates a NOT NULL column, which
the source does not catch, so the model answers 500 and leaves the store unchanged. The lookup
`filter_by(mod_id=None)` becomes `IS NULL`, which no row matches.

## Model

| member | source | states |
|---|---|---|
| `AccessGate.VerifyPassword` | app.py:43-46 | passes only if the body has a `password` key; with a secret set, iff that value is the secret string; with the secret unset, iff it is JSON null (main.py:40-43 is the same function) |
| `AccessGate.QueryAuthorized` | app.py:106-107 | with a secret set, passes iff the query's `password` equals it; with the secret unset, passes iff the query has no `password` at all |
| `Registry.ModByKey` | app.py:167 | `Mod.query.get`: a found mod is in the table and has that primary key; nothing is found iff no row has that key |
| `Registry.FindByModId` | app.py:70 | `filter_by(mod_id=…).first()`: a found mod is in the table with that `mod_id`; nothing is found iff no row has it |
| `Registry.FindByJson` | app.py:87-88 | a JSON null `mod_id` finds no mod; a found mod is in the table and its `mod_id` is the given string |
| `Registry.NextRowId` | app.py:23 | a new row's primary key exceeds every key in the table; it is 1 in an empty table, otherwise the largest key plus one |
| `Registry.RegisterKeepsInvariant` | app.py:73-75 | appending a mod with an unused `mod_id` under the next key keeps keys and `mod_id`s unique and every foreign key resolvable, and the new mod is what its `mod_id` now finds |
| `Registry.RecordKeepsInvariant` | app.py:91-99 | appending a telemetry row under the next key that points at an existing mod keeps the store invariant |
| `Registry.KeyThenModId` | app.py:167 | with unique `mod_id`s, looking up the `mod_id` of the mod found by a foreign key finds that same mod |
| `Registry.ModIdThenKey` | app.py:87-94 | with unique keys, the foreign key a ping stores (the key of the mod found by `mod_id`) leads back to that mod |
| `Registry.JoinOnePerRow` | app.py:110-111 | under the invariant the inner join of telemetry with mods has exactly one entry per telemetry row, the name of that row's mod |
| `Grouping.Count` | app.py:110 | a key's row count is at most the number of rows and is positive iff the key occurs |
| `Grouping.TallyIsTally` | app.py:112 | grouping gives distinct keys, only keys that occur, each key's exact row count, all keys that occur, and counts that sum to the number of rows |
| `Grouping.SortPerm` | app.py:113 | ordering by usage only permutes the grouped lines |
| `Grouping.SortOrdered` | app.py:113 | after ordering, usages do not increase |
| `Grouping.SortKeepsTally` | app.py:113 | ordering a correct grouping yields a usage report (correct grouping, non-increasing usages) |
| `Grouping.MostUsed` | app.py:110-114 | the computed result is a usage report of its rows, and every usage is at least 1 |
| `Grouping.ReportsAgree` | app.py:113 | any two correct groupings of the same rows hold the same lines: only the order among equal usages is open |
| `AppService.RowsOf` | app.py:131 | the filtered rows are exactly the table's rows with that foreign key |
| `AppService.Database.constructor` | app.py:38-40 | the tables start empty and satisfy the store invariant |
| `AppService.Database.CreateMod` | app.py:60-77 | 403 on a wrong password, then 400 "Missing data", then 400 "Mod already exists", then 500 for a null field; all errors leave the mods unchanged; success (201) iff every check passes and appends exactly one mod with the request's `mod_id`/`mod_name` under the next key; telemetry never changes; the store invariant (unique `mod_id`) is kept |
| `AppService.Database.ReceiveTelemetry` | app.py:80-101 | 400 if any of the four fields is missing, then 404 for an unknown `mod_id`, then 500 for a null field; errors add no row; success (201) iff all pass and appends exactly one row copying the request, dated today, whose foreign key is the found mod's key; mods never change; every row keeps naming an existing mod |
| `AppService.Database.MostUsedMods` | app.py:104-116 | 403 on a query-password mismatch; otherwise 200 with a usage report of the join's mod names; under the invariant usages sum to the number of telemetry rows |
| `AppService.Database.MostUsedModVersions` | app.py:119-136 | 403 on a mismatch, then 404 for an unknown `mod_id`; otherwise a usage report over `(mod_version, game_version, loader)` of that mod's rows only, summing to that mod's row count |
| `AppService.Database.MostUsedGameVersions` | app.py:139-150 | 403 on a mismatch; otherwise a usage report over `game_version` of all rows, summing to the number of rows |
| `AppService.Database.ExportCsv` | app.py:153-173 | 403 on a mismatch; otherwise success iff every row's mod exists (else 500), giving a `;`-delimited file: the six-column header, then exactly one record per telemetry row in which the mod column is the external `mod_id` of the referenced mod; under the invariant it always succeeds and each exported `mod_id` leads back to the row's own mod |
| `AppService.ExportedModIdsLeadBack` | app.py:167 | reading the `mod_id` column of each exported record and looking it up finds the mod its telemetry row points at |
| `MainService.RowsOf` | main.py:116 | the filtered rows are exactly the table's rows with that foreign key |
| `MainService.Database.constructor` | main.py:36-37 | the tables start empty and satisfy the store invariant |
| `MainService.Database.CreateMod` | main.py:46-63 | 403 "Contraseña incorrecta", then 400 "Faltan datos", then 400 "El mod ya existe", then 500 for a null field, all with the mods unchanged; success (201) iff all pass and appends exactly one mod; telemetry never changes; the invariant is kept |
| `MainService.Database.ReceiveTelemetry` | main.py:66-86 | 400 if `game_version`, `mod_id` or `mod_version` is missing (no loader), then 404 for an unknown mod, then 500 for a null field; errors add no row; success appends exactly one row pointing at the found mod's key; mods never change |
| `MainService.Database.MostUsedMods` | main.py:89-101 | 403 on a query-password mismatch; otherwise a usage report of the join's mod names, summing to the number of telemetry rows under the invariant |
| `MainService.Database.MostUsedModVersions` | main.py:104-121 | 403, then 404 for an unknown mod; otherwise a usage report over `(mod_version, game_version)` only of that mod's rows, summing to that mod's row count |
| `MainService.Database.MostUsedGameVersions` | main.py:124-135 | 403 on a mismatch; otherwise a usage report over `game_version`, summing to the number of rows |
| `MainService.Database.ExportCsv` | main.py:138-157 | 403 on a mismatch; otherwise a `,`-delimited file with the five-column header and exactly one record per telemetry row whose mod column is the referenced mod's `mod_id` (500 if a mod is missing, never under the invariant) |
| `MainService.ExportedModIdsLeadBack` | main.py:152 | each exported `mod_id` looked up again finds the mod its telemetry row points at |

## Left out

- Flask plumbing is not modelled: routing, `jsonify`, `send_file`, `app.run`. A handler takes
  the parsed body or query string and returns a status with an error text or a payload. The
  crash when `request.get_json()` returns `None` is not modelled.
- `health_check` (app.py:49-51) returns a constant and is not modelled. `get_mods` (app.py:54-57)
  is an unauthenticated listing of the mods table, outside the request-handling core modelled
  here. It is not modelled.
- JSON body values other than strings and `null` are not modelled: numbers, booleans, arrays and
  objects.
- Database errors other than the NOT NULL violation caused by a `null` field are not modelled:
  connection loss, disk errors, transaction rollback. Column length limits such as `String(10)`
  are not enforced by SQLite and are not modelled.
- Concurrency is not modelled, including the check-then-insert race in `create_mod`. The model
  is sequential.
- The environment and the clock are not modelled (`load_dotenv`, `os.getenv`, `datetime.now`).
  The secret and the date are parameters. Converting the UTC timestamp to a date is part of
  that parameter.
- Date rendering is not modelled. A date field of the CSV is the date value itself (`Day`).
  Its text form (YYYY-MM-DD from `strftime` in app.py, `str()` of the date in main.py) is not
  modelled.
- File I/O is not modelled: the fixed file name, `csv.writer` quoting and escaping, and the
  partially written file left behind when the export fails. The file is modelled as a
  delimiter, a header and records of fields.
- `ExportCsv`: records follow the table's insertion order. `Telemetry.query.all()` promises no
  order, so this is one of the orders the source may produce.
- `MostUsedMods`, `MostUsedModVersions`, `MostUsedGameVersions`: the computed list fixes one
  order among equal usages, where SQL leaves it open. The contracts state only what any correct
  result satisfies.
- migrations/versions/02f1f10ef12a_fix_mods_table.py only issues schema DDL and is not modelled.
