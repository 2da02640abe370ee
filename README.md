# Silo monitoring over Modbus RTU — a Dafny model

This project models the sequential core of a silo-monitoring application.
The application polls sixteen Modbus RTU slaves, one holding register each.
It keeps a table of their latest readings, sends Telegram alerts when a
silo goes offline or comes back, and batches readings into an SQL Server
table under ERP silo codes. The project proves properties of that core.

Modules, one per source file or component:

- `Wrappers` (`wrappers.dfy`): `Option` (Python's `None`) and `Outcome` (a check that passes or raises).
- `Decimal` (`decimal.dfy`): `str(n)`, `f"{n:02d}"` and `", ".join(...)`, with a parser that reads them back.
- `Polling` (`polling.dfy`, App.py): the `silo_data` table as the class `SiloTable`, with one method per read outcome, one method per cycle and one for the polling loop.
- `Status` (`status.dfy`): the status dictionary as the alert manager and the database manager read it. Every key may be absent; `last_ok` is `NoStamp`, `Unreadable` or a time.
- `Alerts` (`alerts.dfy`, telegram_alerts.py): the class `AlertManager`. It holds the offline set, the alert times, the edge-triggered check, the cooldown and the offline list of the daily report.
- `Database` (`database.dfy`, database_manager.py): the class `DatabaseManager` with the bounded write queue, the batch writer's buffer and the batch insert. The SQL table is the sequence of rows inserted.
- `Config` (`config.dfy`, database_manager.py): `ConfigManager._validate_config`.

Inputs stand in for the outside world:

- Time is an integer number of seconds, passed in.
- Each Modbus read outcome is an input (`Response`), as is whether the serial port opened.
- Whether Telegram accepted a message is an input (`delivered`).
- Whether the database connection could be obtained is an input (`reachable`).

Observations the proofs rest on:

- An empty register list raises `IndexError` at App.py:59. The `except` branch then clears only `online`, so `Step` treats it like a failed read.
- The cooldown in `_send_offline_alert` never suppresses an alert that `check_and_send_alerts` triggers. A slave has an alert time only while it is in the offline set (`AlertManager.Valid`). A newly offline slave was not in that set, so it has no alert time. `SendOfflineAlerts` returns only the slaves whose alert passed the cooldown, and proves that set is all of the newly offline slaves.
- If the connection cannot be obtained in `_write_batch`, `conn` is never bound. The `if conn:` in its handler then raises `UnboundLocalError`, which escapes to `_batch_writer`'s handler. There `records_buffer` is not cleared, so the batch is kept and retried on the next pass. `WriterRound` models this.
- App.py writes `last_ok` without a time zone. The alert manager subtracts it from a zone-aware time, which is a `TypeError` in Python. Its bare `except` turns that into "offline too long". The model covers this as an `Unreadable` stamp.

The code sets `online` from the outcome of each read, has a fixed 28000 full scale, and uses 16 slaves (`range(1, 17)`). Elsewhere it says 15 slaves: the startup message, the example configuration and the ERP table. The model follows the code.

## Model

| member | source | states |
|---|---|---|
| Polling.InitialTable | App.py:20-28 | the table has exactly the keys 1..16, each with value, percent and last_ok absent and online false |
| Polling.SiloTable.constructor | App.py:20-28 | the table starts as `InitialTable` and satisfies the key-set invariant |
| Polling.Percent | App.py:60 | the percentage is in [0,100] for every register value; it is value*100/28000 on [0,28000], 100 above and 0 at or below 0 |
| Polling.PercentMonotone | App.py:60 | the percentage is non-decreasing in the register value |
| Polling.Step | App.py:58-81 | a non-empty register list sets value, percent, online and last_ok together; any other outcome (no registers, an empty list, an exception) clears online and keeps the other three fields |
| Polling.SiloTable.RecordValue | App.py:58-69 | a good read replaces exactly that slave's entry with the value, its percent, online true and the read time |
| Polling.SiloTable.MarkOffline | App.py:73-81 | a bad response or an exception clears only that slave's online flag; value, percent and last_ok are kept |
| Polling.SiloTable.Handle | App.py:51-81 | handling one response changes only that slave's entry, as `Step` says |
| Polling.SiloTable.PollCycle | App.py:50-83 | one cycle issues exactly `CycleRequests` and leaves the table equal to `AfterCycle` of the old one, keys still 1..16 |
| Polling.CycleRequestsInOrder | App.py:50-56 | a cycle reads register 10, count 1, once per slave, with ids strictly ascending and covering exactly 1..16 |
| Polling.AfterStepsEntry | App.py:50-83 | after the first n slaves of a cycle the key set is unchanged, the handled slaves hold `Step` of their own response and the rest are untouched |
| Polling.CycleEntry | App.py:50-83 | a cycle keeps the keys 1..16 and each slave's new entry depends only on its old entry and its own response |
| Polling.SiloTable.PollingLoop | App.py:42-85 | if the port does not open the table is unchanged and nothing is read; otherwise each cycle applies `AfterCycle` and issues one cycle of requests |
| Alerts.OfflineTooLong | telegram_alerts.py:122-135 | never true for an online slave; for an offline one, true exactly when last_ok is absent or empty, unreadable, or older than the threshold |
| Alerts.OfflineTooLongPersists | telegram_alerts.py:126-135 | an offline-too-long slave stays so at every later time while its status is unchanged |
| Alerts.NewlyOfflineMembers | telegram_alerts.py:138-143 | a slave is newly offline exactly when it is offline too long and was not already in the offline set |
| Alerts.BackOnlineMembers | telegram_alerts.py:145-150 | a slave is back online exactly when it reports online and was in the offline set |
| Alerts.TransitionSets | telegram_alerts.py:137-150 | newly_offline and back_online are disjoint; newly_offline is disjoint from the old offline set and inside the new one; back_online is inside the old one and disjoint from the new one; other slaves keep their membership |
| Alerts.StaysOffline | telegram_alerts.py:138-148 | a slave in the offline set stays there through any checks that do not report it back online |
| Alerts.OneOfflineTransitionPerOutage | telegram_alerts.py:137-150 | during one outage (no back-online report) no check reports the slave newly offline again |
| Alerts.AlertManager.constructor | telegram_alerts.py:13-45 | alerts are enabled only if configured, credentials are set and the connection test passes; threshold 5 and cooldown 15 minutes by default; no slave offline, no alert times |
| Alerts.AlertManager.SendOfflineAlert | telegram_alerts.py:160-186 | during the cooldown nothing is sent; otherwise the alert is attempted and the alert time is recorded only when the message went out |
| Alerts.AlertManager.SendOfflineAlerts | telegram_alerts.py:152-154 | the returned set holds exactly the slaves whose alert was not suppressed by the cooldown, and it equals the newly offline set, so no alert is suppressed; exactly the delivered ones get the current alert time |
| Alerts.AlertManager.CheckAndSendAlerts | telegram_alerts.py:111-158 | disabled: no state change and empty sets; enabled: the returned sets are the transition sets, the offline set becomes old minus back_online plus newly_offline, back-online slaves lose their alert time, delivered offline alerts are stamped, the invariant is kept |
| Alerts.AlertManager.DailyReportOfflineList | telegram_alerts.py:208-224 | disabled: no report; enabled: the offline list is `OfflineListText` of the status items |
| Alerts.OfflineIdsMembers | telegram_alerts.py:219-222 | the offline list holds exactly the ids whose online flag is false or absent |
| Alerts.OfflineIdsAppend | telegram_alerts.py:219-222 | the offline list keeps iteration order: the list of a concatenation is the concatenation of the lists |
| Alerts.OfflineListNone | telegram_alerts.py:224 | the list reads "Nessuno" exactly when every slave is online |
| Decimal.Str | telegram_alerts.py:222 | `str(n)` starts with a digit or a minus sign |
| Decimal.StrRoundTrip | telegram_alerts.py:222 | `str(n)` reads back as n |
| Decimal.Join | telegram_alerts.py:224 | the joined text starts with the first part |
| Decimal.Pad2 | database_manager.py:110 | `%02d` is at least two characters: "0d" below 10, the plain digits from 10 on, a minus sign and the digits for negatives |
| Decimal.Pad2RoundTrip | database_manager.py:110 | `%02d` reads back as the number |
| Database.ErpCode | database_manager.py:103-110 | the fixed table for 1..15 agrees with the format, so every id maps to "S" followed by its `%02d` rendering |
| Database.ErpCodeRoundTrip | database_manager.py:103-110 | the code starts with 'S' and the rest reads back as the slave id |
| Database.ErpCodeInjective | database_manager.py:103-110 | two slaves with the same ERP code are the same slave |
| Database.MakeRecord | database_manager.py:242-249 | a queued record copies value, percent and last_error; online is true only when the status says true (absent means false) |
| Database.DatabaseManager.constructor | database_manager.py:28-37 | an empty queue, buffer and table; batch size 50 unless configured |
| Database.DatabaseManager.QueueData | database_manager.py:236-256 | disabled: the queue is unchanged; full (1000 records): the record is dropped; otherwise it is appended; the queue never exceeds 1000 |
| Database.DatabaseManager.WriteBatch | database_manager.py:186-234 | an empty batch does nothing; an unreachable database raises and inserts nothing; otherwise exactly the insertable records' rows are appended in batch order and counted, so successful writes never exceed the batch length |
| Database.InsertedRowsBound | database_manager.py:204-217 | a batch inserts no more rows than it has records |
| Database.InsertedRowsAppend | database_manager.py:205-217 | rows are inserted in batch order |
| Database.InsertedRowSource | database_manager.py:205-217 | every inserted row comes from an online record with a value |
| Database.InsertedRowPresent | database_manager.py:205-217 | every online record with a value has its row inserted |
| Database.DatabaseManager.WriterRound | database_manager.py:157-184 | the buffer takes records from the head of the queue in FIFO order up to the batch size; a written batch empties the buffer; a batch whose write raised stays buffered; the buffer never exceeds the batch size |
| Config.FirstMissing | database_manager.py:353-357 | reports the first required section, in checking order, that is absent, and none exactly when all are present |
| Config.ValidateConfig | database_manager.py:350-365 | passes exactly when modbus, polling and flask are present, serial_port is present and non-empty and baudrate is present and positive; each error names the check that failed |
| Config.FirstMissingIgnores | database_manager.py:353-357 | a section outside the required list never changes which required section is reported |
| Config.DatabaseSectionOptional | database_manager.py:353-365 | adding or removing a `database` section never changes the verdict |

## Left out

- Polling.Percent: uses exact integer division, while App.py:60 computes with floating point. For some register values the float result is one less, for example 8120 gives 28 in Python and 29 here.
- Polling.SiloTable.RecordValue: the four field writes happen in sequence, and no concurrent reader can observe the partial entry, because the Flask thread is not modelled.
- Polling.SiloTable.PollingLoop: runs a given finite number of cycles of the endless `while True` loop.
- Register values are unbounded integers. pymodbus delivers 16-bit unsigned values.
- `last_ok` is a number of seconds, not a `strftime` string (App.py:69).
- Modbus serial I/O is left out: the client settings, `connect` (only its result is an input), `close`, and the 0.05 s and 5 s pauses. It is a foreign library and the clock.
- The Flask route and template rendering (App.py:92-95, 101-103) are left out: they are UI.
- The threads, `threading.Lock` and `stop_event` are left out: one sequential caller is modelled.
- Alerts.AlertManager.CheckAndSendAlerts: one time `now` serves the whole check and every offline alert it sends. The source reads the clock again in each `_send_offline_alert`.
- Alerts.AlertManager.CheckAndSendAlerts: the recovery messages of `_send_online_alert` are not sent in the model. Their only effect is the HTTP message; `backOnline` says who gets one.
- Log output is not modelled: the `logging` calls in App.py (App.py:71, 76, 81) and the `logger` calls in telegram_alerts.py and database_manager.py have no effect on the state.
- HTTP calls to Telegram are left out: `_test_telegram_connection`, `_send_telegram_message`, the startup message, `send_critical_alert` and `send_test_message`. Only their success is an input.
- Message text is left out: the HTML templates, time-zone handling and `strftime`/`fromisoformat`. The rest of the daily report (counts, uptime, statistics) is left out too. Only the offline list is modelled.
- SQL Server access through pyodbc is left out: connection, table check, reconnection, `get_recent_data` and `close`. It is a foreign library.
- Database.DatabaseManager.WriteBatch: a failing `execute` of one row (logged and skipped) and a failing commit (rolled back) are not modelled. A reachable database inserts every insertable row.
- Database.DatabaseManager.WriterRound: the `write_interval_seconds` timer and the blocking `get(timeout=1.0)` are not modelled. With a single caller no record arrives while the writer waits, so a pass ends when the buffer is full or the queue is empty.
- Database.DatabaseManager.constructor: the `KeyError` when the configuration has no `database` section, and the exception when the database cannot be initialised, are not modelled.
- Config.ValidateConfig: values of the wrong type (a non-string `serial_port`, a non-numeric or null `baudrate`) are not modelled.
- `ConfigManager.load_config` and `_create_example_config` are left out: they are file and JSON I/O.
- `ModBus_Polling.py` is left out: it is a stand-alone test script.
- The credential scripts under `DB_Connection/` are left out: they are encryption and file I/O.
