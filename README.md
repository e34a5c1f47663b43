# sqlite-browser, modelled in Dafny

sqlite-browser is a small Flask application with a single-page dashboard. The
dashboard lists the tables of a SQLite database that have `id`, `content` and
`created_at` columns. It shows the newest rows of the selected table and polls for
new rows every two seconds.

This project models two parts of it:

- **The backend helpers of `app.py`** (`backend.dfy`, module `Backend`):
  - the table-name sanitiser;
  - column-name normalisation (`lower()` then `-` to `_`) and `table_has_columns`;
  - the listing of `/api/tables`: the catalogue query's `type='table' AND name NOT LIKE
    'sqlite_%'` filter, followed by the loop that keeps tables having the required
    columns;
  - the part of `/api/rows/<table>` that runs before SQLite executes anything: the
    sanitiser, the default limit, the loop that searches for the `created_at` column,
    the check for `id`/`content`, and the assembly of the statement and its bound
    parameters.
  - SQLite is replaced by its answers: the entries of `sqlite_master` (name and `type`)
    with their `PRAGMA table_info` column names, and the column names of the requested
    table.
- **The dashboard controller of `static/app.js`** (`dashboard.dfy`, module `Dashboard`):
  - a class `Controller` with the page's variables `tables`, `selected`, `polling` and
    `pollId`, plus the text of the two inputs and the contents of the two panes it
    renders;
  - a ghost log of every row URL fetched;
  - `fetchTables`, `selectTable`, `fetchRows`, `startPolling`, `stopPolling`, the
    toggle handler, the timer tick and the initial-load sequence, as methods;
  - `renderTables` and `renderRows` as loops, proved against view functions;
  - `setInterval`/`clearInterval` as a class `IntervalTimers`, a table of live timers.
    Network answers are arguments of the completion methods.
- **`encodeURIComponent`** (`uri.dfy`, module `UriEncoding`), which the dashboard applies
  to the table name and the search text. It is modelled concretely: unreserved
  characters stay, and everything else becomes `%XY` escapes of its UTF-8 bytes. A
  decoder is proved to undo it, which makes it injective.
- `wrappers.dfy` holds `Option` and `Result`.

The central invariants are these:

- **At most one live timer.** `Controller.OneTimer()` says the live timers are exactly
  the one `pollId` holds, or none. `Controller.Valid()` adds that a timer is live
  exactly while `polling` is on.
  - `SelectTable`, `TogglePolling`, `FinishTableLoad` and `FinishInitialLoad` keep
    `Valid()`.
  - `StartPolling` and `StopPolling` keep `OneTimer()`. Like their JavaScript
    counterparts, they do not touch `polling`; their callers keep the rest.
  - The other methods have frames that exclude everything `Valid()` reads.
- **Auto-select.** After a table load, the first table ends up selected when nothing
  was selected before and the list is non-empty. At most one row fetch is issued for
  it, even across the initial load's `.then` re-check. There is none when the first
  name is the empty string, which is falsy in JavaScript.
- **The `?` placeholders of the row query equal its bound parameters.**

## Model

| member | source | states |
|---|---|---|
| Backend.AllNameChars | app.py:44-45 | the sanitiser accepts a name exactly when every character is alphanumeric, `_` or `-` |
| Backend.AcceptedNameIsInert | app.py:63 | an accepted name holds no `'`, `?` or space, so it cannot leave the quoted identifier of the statement or add a placeholder |
| Backend.Lower | app.py:21 | `lower()` keeps the length and lower-cases each character in place |
| Backend.DashToUnderscore | app.py:22 | `replace('-', '_')` keeps the length and turns each `-` into `_`, leaving other characters alone |
| Backend.Normalize | app.py:21-22 | a normalised name has the original's length, each character lower-cased with `-` mapped to `_`, and contains no `-` |
| Backend.NormalizeIdempotent | app.py:57 | normalising an already normalised name changes nothing |
| Backend.CreatedNameHasNoQuote | app.py:57-63 | a raw column name whose normal form is `created_at` contains no `?` and no `'` |
| Backend.NormalizeAll | app.py:22 | the normalised column list has one entry per column, entry `j` being the normal form of column `j` |
| Backend.AllIn | app.py:23 | `all(r in xs for r in required)` holds exactly when every required name occurs in `xs` |
| Backend.TableHasColumns | app.py:19-23 | `table_has_columns` holds exactly when every required name equals the normal form of some column |
| Backend.LikeSqlitePattern | app.py:31 | defines `name LIKE 'sqlite_%'`: at least seven characters, the first six spelling `sqlite` in any ASCII case (`_` matches exactly one character, `%` any rest) |
| Backend.LikeSqlitePatternCases | app.py:31 | `sqlite_sequence`, `SQLite1` and `sqliteX` match the pattern; `sqlite` (nothing for `_`) and `my_sqlite_t` (not a prefix) do not |
| Backend.CatalogueSelects | app.py:31 | defines the catalogue query's condition: the entry's `type` is `table` and its name does not match `sqlite_%` |
| Backend.UserTablesAppend | app.py:31 | the catalogue query's filter distributes over concatenated catalogues |
| Backend.WithRequiredColumnsAppend | app.py:33-35 | the column filter distributes over concatenated table lists |
| Backend.DetectedIsOrderedFilter | app.py:27-37 | the listing is an order-preserving filter: the answer for `a + b` is the answer for `a` followed by that for `b`, and a single entry yields its name exactly when it is listed |
| Backend.UserTablesMembership | app.py:31 | an entry survives the catalogue filter exactly when it is in the catalogue, has `type` `table`, and its name does not match `sqlite_%` |
| Backend.WithRequiredColumnsMembership | app.py:33-35 | a name is kept exactly when some table of that name has the required columns |
| Backend.DetectedMembership | app.py:27-37 | a name is listed exactly when a catalogue entry of that name is a table outside `sqlite_%` with `id`, `content` and `created_at`; no name matching `sqlite_%` is ever listed, nor a name that only views, indexes or triggers carry |
| Backend.ApiTables | app.py:27-37 | the loop over the filtered catalogue returns exactly the listing |
| Backend.CreatedColumn | app.py:55-59 | defines `created_col`: the first column whose normal form is `created_at`, or none |
| Backend.CreatedColumnIsFirstMatch | app.py:55-59 | the created-at column is the earliest column normalising to `created_at`, and is absent exactly when no column does |
| Backend.CreatedColumnNormalizes | app.py:57-58 | the created-at column, when present, normalises to `created_at` |
| Backend.FindCreatedColumn | app.py:55-59 | the loop with `break` returns the first match |
| Backend.DashedCreatedColumnListed | app.py:19-23 | a table with columns `id`, `content`, `created-at` passes `table_has_columns`, because the dash normalises to `_` |
| Backend.DashedCreatedColumnSpliced | app.py:55-63 | for that table `created_col` is the raw `created-at`, and the select list splices it as it is |
| Backend.ColumnOrNull | app.py:63 | defines `created_col or 'NULL'`: the column's name when there is a non-empty one, else `NULL` |
| Backend.SelectSql | app.py:63 | defines the select part: `SELECT id, content, <column or NULL> as created_at FROM '<table>'` |
| Backend.WhereClauses | app.py:64-69 | defines the conditions: `id > ?` when `since_id` is present (even empty), then `content LIKE ?` when `q` is truthy |
| Backend.QueryParams | app.py:64-69 | defines the bound parameters in the same order: `since_id` as given, then `%q%` |
| Backend.Join | app.py:71 | defines `sep.join(parts)`: the parts with `sep` between neighbours, empty for no parts |
| Backend.OrderSql | app.py:72 | defines the tail ` ORDER BY id DESC LIMIT <limit>`, the limit written in decimal |
| Backend.WhereSql | app.py:70-71 | the `WHERE` part is empty exactly when there are no conditions |
| Backend.IntToDecimal | app.py:72 | the `LIMIT` text is non-empty, starts with `-` exactly for a negative limit (and then has digits after it), starts with a digit otherwise, and is all digits after its first character |
| Backend.NatToDecimal | app.py:72 | the decimal text of a natural number is non-empty and made only of digits |
| Backend.NatDecimalRoundTrip | app.py:72 | reading the digits of a natural number back gives the number |
| Backend.DecimalRoundTrip | app.py:47-72 | for every integer limit that `int()` can produce, the `LIMIT` text denotes it: a non-negative limit reads back as itself, a negative one as `-` followed by the digits of its magnitude |
| Backend.PlaceholdersAppend | app.py:71-72 | placeholder counts add up when the statement is grown with `+=` |
| Backend.JoinPlaceholders | app.py:71 | joining one-placeholder conditions with `" AND "` gives one placeholder per condition |
| Backend.NoPlaceholders | app.py:72 | text without `?` carries no placeholder |
| Backend.SelectPlaceholders | app.py:63 | the select part built for an accepted table carries no placeholder |
| Backend.ClausePlaceholders | app.py:66-69 | `id > ?` and `content LIKE ?` carry one placeholder each |
| Backend.WhereSqlPlaceholders | app.py:70-71 | a `WHERE` part over one-placeholder conditions carries one placeholder per condition |
| Backend.ClausesPlaceholders | app.py:64-69 | every condition the handler adds carries one placeholder |
| Backend.WherePlaceholders | app.py:64-71 | the `WHERE` part carries as many placeholders as there are bound parameters |
| Backend.RowsSqlPlaceholders | app.py:63-72 | the whole statement for an accepted table carries exactly one placeholder per bound parameter |
| Backend.ApiRows | app.py:42-72 | "Invalid table name" exactly when the sanitiser rejects; "missing id/content" exactly when an accepted table lacks `id` or `content` (case-sensitive); otherwise the limit defaults to 200, the parameters are `since_id` then `%q%`, the statement is select + `WHERE` + `ORDER BY id DESC LIMIT`, and its placeholders equal its parameters |
| UriEncoding.Utf8 | static/app.js:54 | a character's UTF-8 encoding is one to four bytes, each below 256 |
| UriEncoding.EncodeUriComponent | static/app.js:54 | the encoding is empty exactly when the text is, is never shorter, and holds only unreserved characters and `%` |
| UriEncoding.EncodeKeepsUnreserved | static/app.js:56 | a name of unreserved characters goes into the URL unchanged |
| UriEncoding.EncodedHasNoDelimiters | static/app.js:56 | an encoded value holds no `/`, `?`, `&`, `=` or `#`, so it stays in its own URL part |
| UriEncoding.EncodeRoundTrip | static/app.js:56 | decoding an encoded text gives the text back |
| UriEncoding.EncodeInjective | static/app.js:56 | two different texts never encode alike |
| Dashboard.ButtonsForAt | static/app.js:37-43 | button `i` carries table `i` and is active exactly when table `i` is the selection |
| Dashboard.ActiveButtons | static/app.js:41 | the active buttons are as many as the occurrences of the selected name: none with no selection, one for a name listed once |
| Dashboard.BuildButtons | static/app.js:37-43 | the `forEach` loop produces the picker's buttons in table order |
| Dashboard.LinesForAt | static/app.js:78-85 | line `i` shows row `i`'s id, content and creation time, missing fields as `''` |
| Dashboard.BuildRowLines | static/app.js:78-85 | the `forEach` loop produces one three-cell line per row, in order |
| Dashboard.LimitParam | static/app.js:53 | defines the `limit` parameter: the limit input's text, or 200 when it is empty (JavaScript's `or` on a falsy string) |
| Dashboard.QueryParam | static/app.js:56 | defines `q ? ('&q=' + q) : ''` on the encoded search text |
| Dashboard.RowsUrl | static/app.js:53-56 | defines the row request: `/api/rows/`, the encoded table, `?limit=`, the limit parameter, then the query parameter |
| Dashboard.RowsUrlParts | static/app.js:53-56 | the request path ends in the encoded table name with no `?` or `/` in it; `limit` is 200 for a blank input; `&q=` is present exactly when the search text is not empty |
| Dashboard.BlankLimitUrl | static/app.js:53-56 | table `t1` with blank inputs is fetched as `/api/rows/t1?limit=200` |
| Dashboard.RowsUrlNamesTable | static/app.js:56 | two different tables never share a request URL, whatever the inputs |
| Dashboard.IntervalTimers.constructor | static/app.js:102 | the page starts with no live timer |
| Dashboard.IntervalTimers.SetInterval | static/app.js:102 | arming a timer returns a fresh, truthy handle and adds exactly that timer |
| Dashboard.IntervalTimers.ClearInterval | static/app.js:101 | clearing removes exactly that handle from the live timers |
| Dashboard.Controller.OneTimer | static/app.js:99-113 | defines the one-timer invariant: the live timers are exactly the one `pollId` holds, with the page's period, or none when `pollId` is null |
| Dashboard.Controller.Valid | static/app.js:96 | defines the controller invariant: `OneTimer()`, and a timer is live exactly while `polling` is on |
| Dashboard.Controller.constructor | static/app.js:125-129 | the page starts with no tables, no selection, polling on, one live timer, the picker showing "Loading…" and no row fetched |
| Dashboard.Controller.StartPolling | static/app.js:99-107 | the old timer is cleared before a new one is armed, so exactly one timer is live and it is new |
| Dashboard.Controller.StopPolling | static/app.js:109-113 | no timer is left live and `pollId` is null |
| Dashboard.Controller.RenderTables | static/app.js:29-45 | the picker shows "No tables found" for an empty list, otherwise the buttons with the selection marked |
| Dashboard.Controller.RenderRows | static/app.js:72-86 | the rows pane shows the single "No rows" placeholder for an empty list, otherwise one line per row |
| Dashboard.Controller.FetchRows | static/app.js:48-56 | no request without a (truthy) selection, otherwise exactly one request for the selected table with the current inputs |
| Dashboard.Controller.CompleteRowFetch | static/app.js:57-69 | a payload with `rows` is rendered; a failed fetch or a payload without `rows` leaves the pane; selection, polling and timers are untouched either way |
| Dashboard.Controller.TimerFires | static/app.js:102-105 | a tick happens only while polling and fetches rows only when a table is selected |
| Dashboard.Controller.SelectTable | static/app.js:89-97 | `selected` becomes `t`, the picker marks it, exactly one row fetch for `t` is issued, and when polling the timer is replaced by a new one while the one-timer invariant is kept |
| Dashboard.Controller.TogglePolling | static/app.js:119-122 | `polling` flips and the live timers follow it: one when on, none when off |
| Dashboard.Controller.EditInputs | static/app.js:53-54 | the inputs that the next request reads hold the edited text |
| Dashboard.Controller.BeginTableLoad | static/app.js:10-11 | the picker shows "Loading…" |
| Dashboard.Controller.FinishTableLoad | static/app.js:12-26 | success: `tables` is the answer's list or `[]`, the picker is rendered, and the first table is selected with one fetch when nothing was selected; failure: only the picker changes, to the error text, and selection, polling and timers stay |
| Dashboard.Controller.FinishInitialLoad | static/app.js:126-128 | after the initial load and its re-check, the first table is selected and fetched exactly once when nothing was selected and the list is non-empty; otherwise selection, requests and timer are unchanged |
| Dashboard.InitialLoadScenario | static/app.js:125-129 | loading tables `t1`, `t2` at start selects and highlights `t1`, fetches `/api/rows/t1?limit=200` once and leaves one timer live |
| Dashboard.ToggleTwice | static/app.js:119-122 | two toggles restore `polling`, with one live timer when on and none when off |

## Left out

- Backend.IsAlnum: Python's `str.isalnum` accepts every Unicode letter and digit; the model accepts ASCII letters and digits only.
- Backend.Lower: Python's `str.lower` lower-cases every Unicode capital; the model lower-cases ASCII capitals only. The same holds for the `LIKE` case folding, which in SQLite is ASCII-only anyway.
- Backend.ApiRows: the `limit` argument is taken as an already parsed integer. The `int()` parse failure of a non-numeric `limit` raises an exception and is not modelled.
- Backend.ApiRows: executing the statement, the rows it returns, SQLite errors and the 500 answers are not modelled. The `PRAGMA table_info` query is replaced by its column list. HTTP status codes become the `ApiError` values.
- Backend.ApiTables: the catalogue is taken in the `ORDER BY name` order SQLite returns. SQLite's collation is not modelled.
- Backend.SelectSql: how SQLite reads the statement is not modelled. A creation column spelt with a dash (`created-at`) passes `table_has_columns` and is spliced unquoted, so SQLite would read it as a subtraction and the handler would answer 500. `DashedCreatedColumnListed` and `DashedCreatedColumnSpliced` show the model reaching that state; the failing execution lies outside the model.
- UriEncoding.EncodeUriComponent: a Dafny `char` is a Unicode scalar value, so lone surrogates cannot occur. In the page, a search text holding one makes `encodeURIComponent` throw `URIError`, which nothing at static/app.js:54 catches; that path is not modelled.
- The `index` route (file I/O and the floating-point `REFRESH_INTERVAL` conversion), Flask routing, CORS and dotenv are not modelled.
- The DOM is reduced to the contents of the two panes. Button labels and CSS classes, the `selectedTitle` text, the status line with its clock times, and `console` logging are left out.
- The network is left out. A row fetch is recorded as its URL, and a completed fetch is a separate call (`CompleteRowFetch`). The race between overlapping row fetches (the last answer to arrive wins) is concurrency and is not modelled.
- Row ids are shown as text. JSON decoding is left out, beyond a payload being present or not.
- The real timing of `setInterval` is left out. Only armed and cleared handles are modelled, and a tick is a call with a live handle.
- Dashboard.Controller.constructor: the page's initial row markup is an opaque `InitialRows` value.
