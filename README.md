# RFID access control — a Dafny model

This project models the access-control core of a small Flask service (app/routes.py,
app/forms.py, app/models.py). An ESP32 badge reader posts each scanned RFID uid to
`/api/rfid_log`. The service looks the uid up in the table of registered tags,
appends exactly one row to the access log ("Acesso Garantido" under the tag's
username, or "Acesso Negado" under "Desconhecido"), and builds a Discord webhook
notification for that row. `/api/get_logs` returns at most five log rows, newest first.
`/register_tag` inserts a tag only when the registration form's validators pass.
Those validators, together with the table's unique columns, keep both uid and
username unique.

Modules, one per source component:

- `Text` (text.dfy): the Python string semantics the forms rely on: `strip()` with
  Python's whitespace set, ASCII `lower()`, `endswith`, substring containment.
- `Models` (models.dfy): the `RfidTag` and `AccessLog` rows and their column
  defaults. The tag table is a `map` keyed by `tag_uid`, and its uniqueness
  constraints are the predicate `TableWellFormed`.
- `Forms` (forms.dfy): `DataRequired`, `FileAllowed`, `validate_tag_uid`,
  `validate_username`, and WTForms' rule that a DataRequired failure stops a
  field's validator chain. Both forms are covered.
- `Webhook` (webhook.dfy): the payload `send_discord_webhook` builds, and the no-op
  when no URL is configured.
- `LogQuery` (logquery.dfy): `order_by(timestamp.desc()).limit(5)` and the JSON
  list comprehension of `get_logs`.
- `Routes` (routes.dfy): the scan decision, and the `Store` class. `Store` holds
  the tag table (`tags`) and the access log (`log`). Its methods `RfidLog` and
  `RegisterTag` model the two endpoints that write to the database; a
  `db.session.add` plus `commit` becomes an append to `log` or an insert into
  `tags`. The invariant `Store.Valid` holds the schema constraints, no blank uid
  or username, and "every log row is explainable from the tag table".

Inputs from the environment are parameters:

- The clock reading at insert time is `now: nat`.
- Whether `DISCORD_WEBHOOK_URL` is set is `webhookConfigured: bool`.
- Whether the registration request is a submission (POST) is `submitted: bool`.
- The parsed JSON body of a scan is `Option<map<string, string>>`.

The model follows the code as written:

- The scanned uid is not trimmed.
- `{"uid": ""}` is accepted and logged. The lemma `BlankUidDenied` shows such a
  scan is always denied.
- The 201 response carries no decision.
- The notification is built right after the row is appended, and it is sent
  inline, with no timeout.
- No route in this code base lets anything open the door. discord_bot.py:19 posts
  to `/api/trigger_door`, which no route in app/routes.py defines.

## Model

| member | source | states |
|---|---|---|
| `Models.NewRfidTag` | app/models.py:25-29 | a tag row keeps the given uid and username; `image_file` is "default.jpg" unless given |
| `Models.NewAccessLog` | app/models.py:34-39 | a log row keeps uid and username; its timestamp is the insert-time clock; `status` is "Negado" unless given |
| `Models.UidTaken` | app/routes.py:59 | defined as: some row of the table has this `tag_uid`, the `filter_by(tag_uid=uid).first()` query (also app/forms.py:20); in a well-formed table it means the uid is a key, by `Models.UidTakenIffKey` |
| `Models.UsernameTaken` | app/forms.py:25 | defined as: some row of the table has this `username`, the `filter_by(username=...).first()` query; `Forms.ValidatorsIffRegistered` states it as membership in the set of registered usernames |
| `Models.UidTakenIffKey` | app/models.py:27 | in a table with unique `tag_uid`, the uid query finds a row exactly when the uid is a key of the table |
| `Models.InsertKeepsWellFormed` | app/models.py:27-28 | inserting a row whose uid and username are both unused keeps both columns unique, adds exactly one row and leaves every other row unchanged |
| `Models.RejectedRowDuplicates` | app/models.py:27-28 | a row the unique constraints refuse duplicates an existing uid or an existing username |
| `Forms.DataRequired` | app/forms.py:14-15 | a field fails `DataRequired` exactly when it is empty or `strip()` leaves nothing |
| `Forms.Chain` | app/forms.py:13-27 | a field has no errors exactly when neither validator fails; a DataRequired failure is the only error reported, because it stops the chain |
| `Forms.ValidateTagUid` | app/forms.py:19-22 | `validate_tag_uid` reports only UidInUse; it reports it iff the uid is registered, by `Forms.ValidatorsIffRegistered` |
| `Forms.ValidateUsername` | app/forms.py:24-27 | `validate_username` reports only UsernameInUse; it reports it iff some tag has that username, by `Forms.ValidatorsIffRegistered` |
| `Forms.EndsWithDotIffAfterLastDot` | app/forms.py:16 | for a dot-free extension, `endswith("." + ext)` holds exactly when `ext` is the text after the last dot |
| `Forms.EndsWithAnyIffAfterLastDot` | app/forms.py:16 | `any(endswith("." + x))` over dot-free extensions holds exactly when the text after the last dot is one of them |
| `Forms.FileAllowed` | app/forms.py:16 | the picture check yields no error or exactly the one FileNotAllowed error; no upload, or an upload with an empty file name, passes, since the field has no FileRequired |
| `Forms.FileAllowedIffExtension` | app/forms.py:16 | a named upload passes exactly when its lower-cased extension after the last dot is jpg, png or jpeg |
| `Forms.ValidateTagForm` | app/forms.py:13-27 | each field of the registration form reports at most one error, and only one its own validators raise: Required or UidInUse, Required or UsernameInUse, FileNotAllowed; when it passes is stated by `Forms.TagFormPassesIff` |
| `Forms.TagFormPassesIff` | app/forms.py:13-27 | the registration form passes iff uid and username are non-blank, no tag has that uid, no tag has that username, and the picture is allowed; each duplicate is reported on its own field iff the field is non-blank and the value is taken |
| `Forms.ValidatorsIffRegistered` | app/forms.py:19-27 | `validate_tag_uid` fails iff the uid is registered; `validate_username` fails iff some registered tag has that username |
| `Forms.PassingFormAdmitted` | app/forms.py:19-27 | a passing form yields a row the unique constraints admit, with non-blank uid and username |
| `Forms.ValidateLoginForm` | app/forms.py:7-11 | username and password each report nothing or the one Required error; when the form passes is stated by `Forms.LoginFormPassesIff` |
| `Forms.LoginFormPassesIff` | app/forms.py:7-11 | the login form passes iff username and password are both non-blank after `strip()`; `remember_me` plays no part |
| `Webhook.UidFieldValue` | app/routes.py:37 | the field value is the uid wrapped in one backtick on each side: two characters longer, a backtick at each end, and the uid in between |
| `Webhook.BuildPayload` | app/routes.py:20-41 | one embed with one field, named "UID da Tag", not inline, from which the uid is recovered. The colour is 15158332 iff the status is "Acesso Negado"; that status gives the fixed title containing "Tag Desconhecida" and the fixed description. Any other status gives colour 3066993, and both title and description contain the username |
| `Webhook.Notification` | app/routes.py:13-18 | nothing is sent iff no webhook URL is configured; otherwise the payload of `BuildPayload` |
| `Webhook.DeniedPayloadIgnoresUsername` | app/routes.py:20-23 | a denial notice is the same whatever username is passed |
| `Webhook.PayloadDeterminesUid` | app/routes.py:37 | two notices that are equal came from the same uid, whatever usernames and statuses they were built with |
| `LogQuery.InsertByTimestamp` | app/routes.py:81 | inserting into a newest-first sequence keeps it newest-first and adds exactly that entry (one more element, same multiset plus it) |
| `LogQuery.OrderByTimestampDesc` | app/routes.py:81 | `order_by(timestamp.desc())` is newest-first and a permutation of the rows |
| `LogQuery.SplitNewestFirst` | app/routes.py:81 | cutting the ordered rows at k leaves a newest-first prefix; no row after the cut is newer than a row before it |
| `LogQuery.RecentLogs` | app/routes.py:81 | the query returns min(5, number of rows) rows, newest first, all taken from the log; no row left out is newer than a row returned |
| `LogQuery.ItemOf` | app/routes.py:83-88 | the dict built for one row drops nothing: the row is rebuilt from its username, tag_uid, timestamp and status (the timestamp kept as the clock reading; its local-time rendering is left out) |
| `LogQuery.GetLogs` | app/routes.py:82-91 | one item per queried row, in query order, with username, tag_uid, status and timestamp passed through unchanged |
| `LogQuery.GetLogsShape` | app/routes.py:77-91 | `get_logs` returns min(5, number of rows) items, never more than five, with non-increasing timestamps |
| `LogQuery.GetLogsCoverage` | app/routes.py:77-91 | every item shows a logged row, and every row left out has a timestamp no later than every item's |
| `LogQuery.OrderOfOldestFirstIsReverse` | app/routes.py:81 | for a log whose timestamps strictly increase, the descending order is the log reversed |
| `LogQuery.RecentOfOldestFirst` | app/routes.py:81 | for a log whose timestamps strictly increase, `get_logs` shows the last min(5, number of rows) scans, most recent first |
| `Routes.Decide` | app/routes.py:58-65 | the scan is granted iff the uid is registered. A grant carries the tag's username; otherwise "Desconhecido" with "Acesso Negado" |
| `Routes.GrantedIffUidValidatorRejects` | app/routes.py:59 | a scan is granted exactly when `validate_tag_uid` would reject that uid as taken |
| `Routes.ScanUid` | app/routes.py:52-56 | the request is refused iff there is no JSON object or it has no "uid" key; otherwise its value is taken unchanged, the empty string included |
| `Routes.Registered` | app/routes.py:128-131 | the table after a submitted form: no row is lost, at most the form's uid is added, every other row is unchanged, and a changed table holds the new tag with the default image; invariants by `Routes.RegisteredKeepsTagsValid` |
| `Routes.RegisteredKeepsTagsValid` | app/routes.py:124-135 | registration keeps uid and username unique and non-blank. A passing form adds exactly one tag, with the default image, and every existing tag keeps its row |
| `Routes.RegisterRejectsDuplicates` | app/routes.py:128-131 | a form whose uid or username is already registered leaves the table unchanged |
| `Routes.ScanAfterRegistration` | app/routes.py:124-135 | after a successful registration the new uid is granted under the new username, and every other uid's decision is unchanged |
| `Routes.BlankUidDenied` | app/routes.py:53-65 | a blank uid, which `rfid_log` accepts, is always denied, since no registered tag has a blank uid |
| `Routes.LogExplainedGrows` | app/routes.py:124-135 | registering tags never invalidates an earlier log row, since tags are never changed or removed |
| `Routes.DefaultStatusNeverLogged` | app/routes.py:68 | every logged row carries an explicit status, so the default "Negado" never reaches the log |
| `Routes.NotificationMatchesDecision` | app/routes.py:58-73 | the notice for a scan has the green colour iff the uid is registered. A granted notice's title names the tag's user; a denied notice has the fixed title. The uid is recoverable from the field in both cases |
| `Routes.Store.constructor` | app/__init__.py:38-39 | a fresh database has no tags and no log rows |
| `Routes.Store.RfidLog` | app/routes.py:49-75 | A body without "uid" gets 400 and nothing changes. Otherwise exactly one row (uid, decided username, clock reading, decided status) is appended, with every earlier row and the tag table unchanged, and the answer is 201 in both cases. The notification is built from that appended row, and built only once the row is in the log |
| `Routes.Store.RegisterTag` | app/routes.py:124-135 | a GET shows the form and changes nothing. A failing submission shows its errors and changes nothing. A passing one inserts exactly the new tag and redirects. The log never changes, and `Valid` (unique uid and username) is kept |

Two methods in routes.dfy are worked examples, not models of a source operation:
`Routes.ScanUnknownAndEmpty` walks `rfid_log` through an unknown uid, an empty
uid and a body without "uid". `Routes.RegisterThenScan` registers a tag on a
fresh database, then scans it, then tries to register a second tag with the same
username.

## Left out

- The door-opening endpoint: discord_bot.py:19 posts to `/api/trigger_door`, which
  no route in app/routes.py defines, so there is nothing to model.
- discord_bot.py: an asynchronous Discord client that makes HTTP calls. It is
  network I/O with no core logic.
- The webhook transport: `requests.post`, its exception handler, the `print`
  calls, and reading `DISCORD_WEBHOOK_URL` from the environment. The URL lookup is
  the boolean `webhookConfigured`; the result is the payload that would be posted.
- Login, logout, `login_required`, `load_user`, password hashing (werkzeug) and the
  `index` page are framework and foreign calls. For the same reason the `User`
  table and its unique, non-null username are not modelled: no modelled operation
  reads the users, and no path in the code creates one.
- Flask-WTF's CSRF check inside `validate_on_submit` is taken as passing.
- Template rendering, flash storage and redirects are reduced to the
  `RegisterOutcome` value.
- Rendering timestamps as local time (`astimezone().strftime`): it depends on the
  server's time zone. Items carry the raw clock reading instead.
- Scan bodies outside JSON objects with string values. `ScanUid` takes a parsed
  object whose values are strings, or no object at all. What the code does with
  the rest:
  - A number as uid: on SQLite, the default database (config.py:16-17), the
    `String(64)` column compares and stores it as its text, so `{"uid": 123}`
    acts like `{"uid": "123"}`. Other backends may differ.
  - A `null` uid: the lookup finds no tag, and the commit fails because
    `AccessLog.tag_uid` is not nullable.
  - A JSON list or string with no "uid" element, or a false-like body (`0`,
    `false`, `[]`, `""`), gets 400 from the check at app/routes.py:53.
  - A list holding "uid", a string containing "uid", or a `true` or non-zero
    number body raises at app/routes.py:53-56, so the request fails with no row
    written.
  - A body not sent as JSON is handled by Flask's `get_json`, whose answer
    depends on the Flask version.
- Storage failures and rollbacks: the code has none around `commit`. Also left
  out is a concurrent registration racing between validation and commit, which
  the database's unique index would turn into an error.
- Column length limits (`String(64)`, `String(20)`): enforcement depends on the
  database backend.
- Auto-increment `id` columns: no modelled output shows them.
- `Text.Lower` folds only A–Z, while Python's `lower()` folds all of Unicode. The
  only non-ASCII characters that lower-case into ASCII letters are U+0130 (to "i"
  plus a combining dot) and U+212A (to "k"). Neither can end a name in jpg, png
  or jpeg, so `FileAllowed` is unaffected.
- `LogQuery.OrderByTimestampDesc`: SQL leaves the order of rows with equal
  timestamps unspecified. The model puts the later-appended row first. What the
  contracts of `OrderByTimestampDesc`, `RecentLogs`, `GetLogsShape` and
  `GetLogsCoverage` state holds for every order the database may choose; which
  of several equally new rows appear, and where, follows the model's rule.
- OrderOfOldestFirstIsReverse and RecentOfOldestFirst are stated only for logs
  whose timestamps strictly increase. With equal timestamps, the database does
  not fix which rows the `.limit(5)` keeps or in what order, and only the
  order-independent facts of `RecentLogs` and `GetLogsCoverage` apply.
