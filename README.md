# ElectricityQuery: a verified model of the meter-reading service

ElectricityQuery is a small Flask service, all of it in `app.py`. It keeps one
in-memory table, `user_data`. The table maps a meter id to an account record.
A record holds the owner's profile (username, dwelling type, region, area), a
"next meter update" time string, and an append-only list `meter_readings` of
`{time, reading}` entries. A process-wide flag, `stop_server`, marks the
maintenance hour 00:00-01:00. While it is set, readings cannot be submitted.

This project models that table and the handlers that use it:

- registration of a meter (`register`);
- insertion of a reading (`save_meter_reading`), reached through the manual
  entry form of `POST /reading`;
- the maintenance flag (`update_server_status`) and the gate in `reading`;
- the exact-match query (`query`): parse a `YYYY-MM-DD HH:MM:SS` timestamp, step
  back 30 minutes on the Gregorian calendar, and look up the first reading stored
  under the canonical string of each instant;
- the daily-usage stub (`history`).

Files:

| file | module | contents |
|---|---|---|
| `wrappers.dfy` | `Wrappers` | `Option`, with failure propagation for `:-` |
| `calendar.dfy` | `Calendar` | `DateTime` as Python's `datetime` holds it, validity, the day ordinal, seconds since 0001-01-01, and the 30-minute back-step |
| `time_format.dfy` | `TimeFormat` | `strptime` with `"%Y-%m-%d %H:%M:%S"` and `"%Y-%m-%d"`, directive by directive as CPython's `_strptime` matches them; `strftime` with `"%Y-%m-%d %H:%M:%S"` |
| `accounts.dfy` | `Accounts` | readings, account records, the table, the first-match lookup, and the table invariants |
| `handlers.dfy` | `Handlers` | each handler as a pure step: from the table it finds to the outcome it reports and the table it leaves |
| `properties.dfy` | `HandlerProperties` | lemmas relating several steps, and the query against the calendar's timeline |
| `server.dfy` | `Server` | class `ElectricityService` with the fields `users` and `stopServer`, updated in place by methods that follow the handlers statement by statement |

The handler methods of `Server.ElectricityService` (`Register`,
`SaveMeterReading`, `PostReading`, `Query`, `History`) are proved to leave
`users` and report the outcome that the matching function in `Handlers`
computes. `UpdateServerStatus` and `StopServerStatus` change only the flag.
`NextWithTime` is proved equal to `Accounts.FirstWithTime`. The properties are
proved about the functions. `Query` and `History` appear twice on purpose. As
functions of a table they are what the lemmas talk about. As methods they are
the handlers reading the shared `user_data` field.

Flask's redirects, flash messages and rendered pages become outcome values. An
exception that escapes a handler, which Flask turns into an HTTP 500, becomes a
`Raised` outcome naming the exception. The wall clock is a parameter: `now` for
registration, `hour` for the maintenance flag. Python's `float` is a parameter
too: `toFloat`, where `None` stands for its `ValueError`.

Facts about `app.py` that the model keeps:

- There is no backup or archive cycle, no endpoint that toggles the flag, and no
  debug endpoint. The flag only blocks `POST /reading`.
- The query compares `strftime` strings, not the submitted timestamp text. An
  unpadded timestamp such as `2025-1-1 9:5:7` is accepted, and the query then
  looks for `2025-01-01 09:05:07` (`TimeFormat.UnpaddedFieldsAccepted`,
  `TimeFormat.UnpaddedIsNotCanonical`).
- Bulk CSV upload cannot succeed. `pd` is used at app.py:120 but never imported.
  A `.csv` upload that reaches app.py:120 raises `NameError`. Whatever the manual
  entry in the same request did stays done.

## Model

| member | source | states |
|---|---|---|
| Calendar.SecondsNonNegative | app.py:191 | Every valid date-time is at or after the start of the timeline. It is less than 30 minutes in exactly when it falls before 0001-01-01 00:30:00. |
| Calendar.SecondsInjective | app.py:191 | Distinct valid date-times are distinct instants on the timeline. |
| Calendar.MinusHalfHour | app.py:191 | `query_time - timedelta(minutes=30)`. It fails, as the `OverflowError`, exactly for a time before 0001-01-01 00:30:00. Its result is always a valid date-time. `HalfHourEarlier` and `HalfHourEarlierUnique` prove that the result is the instant 1800 seconds earlier. |
| Calendar.HalfHourEarlier | app.py:191 | `MinusHalfHour(t)` is defined exactly when `t` is at least 1800 seconds after 0001-01-01 00:00:00. Its result is then a valid date-time exactly 1800 seconds earlier, across hour, day, month and year boundaries and leap days. |
| Calendar.HalfHourEarlierUnique | app.py:191 | Any valid date-time 1800 seconds before `t` is the one `MinusHalfHour(t)` returns. |
| TimeFormat.ParseDateTime | app.py:184 | Whatever `strptime` with `"%Y-%m-%d %H:%M:%S"` accepts is a valid date-time. Rejection is the `ValueError`. |
| TimeFormat.ParseDate | app.py:216 | Whatever `strptime` with `"%Y-%m-%d"` accepts is a valid date at midnight. |
| TimeFormat.Format | app.py:193-194 | `strftime("%Y-%m-%d %H:%M:%S")` writes 19 characters, with the separators at their fixed positions. `ParseFormat` and `FormatInjective` prove that it is read back exactly and that distinct date-times give distinct strings. |
| TimeFormat.ParseLayout | app.py:146 | A zero-padded string is accepted exactly when its fields form a real date-time, and then it parses to those fields. |
| TimeFormat.ParseFormat | app.py:193-194 | `strptime` reads back every string `strftime` writes. |
| TimeFormat.FormatIsCanonical | app.py:193-194 | Every `strftime` string is canonical: it parses, it formats back to itself, and it is 19 characters long. |
| TimeFormat.FormatInjective | app.py:193-194 | Distinct date-times have distinct `strftime` strings. |
| TimeFormat.ParseDateOfFormattedDay | app.py:216 | The first 10 characters of a `strftime` string are accepted by the date-only parse as midnight of that day. |
| TimeFormat.UnpaddedFieldsAccepted | app.py:184 | `"2025-1-1 9:5:7"` is accepted, as 2025-01-01 09:05:07. |
| TimeFormat.UnpaddedIsNotCanonical | app.py:193 | That date-time formats as `"2025-01-01 09:05:07"`, not as the text it was parsed from. |
| TimeFormat.LeapDayAccepted | app.py:184 | 29 February 2024 is accepted. |
| TimeFormat.CenturyLeapDayAccepted | app.py:184 | 29 February 2000 is accepted. |
| TimeFormat.CommonYearLeapDayRejected | app.py:184 | 29 February 2023 is rejected. |
| TimeFormat.CenturyLeapDayRejected | app.py:184 | 29 February 1900 is rejected. |
| Accounts.FirstWithTime | app.py:193-194 | The lookup returns nothing exactly when no reading has the time. Otherwise it returns the reading at the first index with that time. |
| Handlers.RegisterStep | app.py:58-73 | An empty username or meter id is rejected. A meter id already present is rejected. Either rejection leaves the table unchanged. Otherwise exactly one key is added. Its record holds the submitted profile, an empty reading list and the `strftime` string of `now`. No other record changes. |
| Handlers.SaveStep | app.py:136-158 | A bad value raises first, even for an unknown meter. Then an unknown meter is rejected, then a bad time raises. A reading whose own time falls in hour 0 is rejected. Every rejection leaves the table unchanged. Otherwise the meter's list, created empty if missing, gains exactly the new entry at its end. The profile and every other record stay as they were. |
| Handlers.MaintenanceFlag | app.py:83-89 | The flag is set if and only if the hour is 0. |
| Handlers.ReadingStep | app.py:92-131 | At hour 0 every POST is refused and the table is unchanged. Otherwise an incomplete entry is refused and the table is unchanged. A complete entry has exactly the effect of `save_meter_reading`, and its exceptions propagate. A `.csv` upload then raises `NameError`, and the manual entry's effect, if any, is kept. |
| Handlers.Query | app.py:180-199 | Missing fields are reported first. A bad timestamp raises before the meter is checked. An unknown meter is reported. A record without a reading list raises `KeyError`. |
| Handlers.History | app.py:212-222 | Missing fields are reported first, then a bad date raises, then an unknown meter is reported. Otherwise the stub acknowledges exactly the submitted date. |
| HandlerProperties.RegisterKeepsInvariants | app.py:66-73 | Registration removes no record, changes no profile and shortens no reading list. It keeps the table well formed. |
| HandlerProperties.SaveKeepsInvariants | app.py:152-158 | Saving a reading removes no record, changes no profile and shortens no reading list. It keeps the table well formed: every stored time parses and is outside hour 0. That only the one meter's list changes is stated by `SaveStep`. |
| HandlerProperties.ReadingKeepsInvariants | app.py:96-131 | The same holds for a whole `POST /reading`. |
| HandlerProperties.RegisteringTwiceIsRejected | app.py:62-64 | A second registration of a meter id is rejected. The table, including the first record, stays as the first registration left it. |
| HandlerProperties.AcceptedAfterMaintenance | app.py:98-114 | An entry refused at hour 0 without any change is accepted at any other hour and appended. |
| HandlerProperties.QueryMatchesExactInstants | app.py:191-199 | The query reports both readings exactly when readings exist at both instants, each under its `strftime` string. Each reported reading is the first at its instant. Otherwise it reports insufficient data. |
| HandlerProperties.QueryOverflowsOnlyAtCalendarStart | app.py:191 | The back-step raises only for a timestamp in the first half hour of 0001-01-01. |
| HandlerProperties.QueryReportsCanonicalTimes | app.py:193-194 | Every reported reading is stored under a canonical time string. A reading stored under any other text is never reported. |
| HandlerProperties.SavedReadingIsQueried | app.py:155-158 | A reading saved under a canonical time, the first at that time, is what a query at that time reports as current. The query succeeds once a reading 30 minutes earlier is also present. |
| HandlerProperties.ScenarioQueryFound | app.py:190-199 | With readings at 10:00 and 10:30, a query at 10:30 reports both. |
| HandlerProperties.ScenarioQueryInsufficient | app.py:196-197 | With the same readings, a query at 11:00 reports insufficient data. |
| HandlerProperties.HistoryIgnoresReadings | app.py:218-222 | The history outcome depends only on which meter ids exist, never on their records. |
| Server.ElectricityService.constructor | app.py:16-25 | Start-up loads the stored table, or an empty one when the file is missing or is not valid JSON. The flag starts off. |
| Server.ElectricityService.UpdateServerStatus | app.py:83-89 | Sets the flag if and only if the hour is 0. |
| Server.ElectricityService.StopServerStatus | app.py:164-167 | Refreshes the flag and reports it. |
| Server.ElectricityService.Register | app.py:50-78 | Updates the table in place exactly as `RegisterStep` describes. |
| Server.ElectricityService.SaveMeterReading | app.py:136-161 | Updates the table in place exactly as `SaveStep` describes. |
| Server.ElectricityService.PostReading | app.py:93-131 | Refreshes the flag first, then acts and reports exactly as `ReadingStep` describes. |
| Server.ElectricityService.NextWithTime | app.py:193-194 | The linear scan stops at the first reading with the time and agrees with `FirstWithTime`. It finds nothing exactly when no reading has the time. |
| Server.ElectricityService.Query | app.py:173-201 | Reads the table without changing it, and reports what `Handlers.Query` describes. |
| Server.ElectricityService.History | app.py:205-224 | Reads the table without changing it, and reports what `Handlers.History` describes. |

## Left out

- Flask itself is not modelled: routing, `GET` pages, `render_template`, `flash` texts, `redirect`, `jsonify` and the index page. Outcomes are datatypes. `GET /reading` only refreshes the flag, which is `UpdateServerStatus`.
- `save_user_data` and `log_action` (app.py:27-35) are file writes and are not modelled. The table a handler leaves is what would be written.
- JSON decoding in `load_user_data` (app.py:16-25) is not modelled. The constructor takes the decoded table, or `None` for a missing or undecodable file.
- Record shapes the JSON file could hold beyond the one the handlers write are not modelled. These include records without a username, non-string times, and readings without a `"time"` key. The one irregular shape that is modelled is a record without `meter_readings`, which `save_meter_reading` repairs and `query` trips over.
- `datetime.now()` (app.py:35, 72, 85) is not modelled. Registration takes `now`, and the flag takes the current `hour`.
- `float` parsing and floating-point values are not modelled. `toFloat` is a parameter. A reading value is an opaque 64-bit pattern that is only stored and reported back.
- The rows of a CSV upload are not modelled, because the upload always fails at `pd.read_csv` (`pd` is never imported). The model records that failure as `PandasUndefined`.
- TimeFormat.ParseDateTime and TimeFormat.ParseDate: `\d` in CPython's patterns also accepts non-ASCII decimal digits. Both parsers accept ASCII digits only.
- TimeFormat.Format: the year is always written with four digits. Some C libraries write years below 1000 without padding.
- Concurrent requests on the shared table are not modelled. Each handler runs to completion on its own.
- The history handler computes no usage, because `app.py` computes none.
