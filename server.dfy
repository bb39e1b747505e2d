/** The running service: the module-level `user_data` table and the `stop_server`
    flag, updated in place by the handlers. Each method does what its handler
    does, step by step, and is proved to leave the table and report the outcome
    that the corresponding function of `Handlers` describes. The wall clock is a
    parameter (`now`, `hour`); saving the table to disk and appending to the log
    are left out. */
module Server {
  import opened Wrappers
  import opened Calendar
  import opened TimeFormat
  import opened Accounts
  import opened Handlers

  class ElectricityService {
    /** `user_data` */
    var users: Users
    /** `stop_server` */
    var stopServer: bool

    /** Start-up: `load_user_data()` with the flag off. `stored` is the decoded
        record file; `None` when the file is missing or is not valid JSON. */
    constructor(stored: Option<Users>)
      ensures users == (if stored.Some? then stored.value else map[])
      ensures !stopServer
    {
      match stored {
        case Some(table) => users := table;
        case None => users := map[];
      }
      stopServer := false;
    }

    /** `update_server_status()` at wall-clock hour `hour`. */
    method UpdateServerStatus(hour: int)
      requires 0 <= hour < 24
      modifies this`stopServer
      ensures stopServer <==> hour == 0
      ensures stopServer == MaintenanceFlag(hour)
    {
      if 0 <= hour < 1 {
        stopServer := true;
      } else {
        stopServer := false;
      }
    }

    /** GET /stop_server: refreshes the flag and reports it. */
    method StopServerStatus(hour: int) returns (stopped: bool)
      requires 0 <= hour < 24
      modifies this`stopServer
      ensures stopped == stopServer
      ensures stopped <==> hour == 0
    {
      UpdateServerStatus(hour);
      stopped := stopServer;
    }

    /** POST /register with the clock reading `now`. */
    method Register(form: RegisterForm, now: DateTime) returns (outcome: RegisterOutcome)
      requires Valid(now)
      modifies this`users
      ensures Step(outcome, users) == RegisterStep(old(users), form, now)
    {
      if !Filled(form.username) || !Filled(form.meterId) {
        return RequiredFieldsMissing;
      }
      if form.meterId.value in users {
        return MeterIdTaken;
      }
      users := users[form.meterId.value := NewAccount(form, now)];
      outcome := Registered;
    }

    /** `save_meter_reading(meter_id, meter_value, update_time)`. */
    method SaveMeterReading(meterId: string, meterValue: string, updateTime: string,
                            toFloat: string -> Option<Kwh>) returns (outcome: SaveOutcome)
      modifies this`users
      ensures Step(outcome, users) == SaveStep(old(users), meterId, meterValue, updateTime, toFloat)
    {
      var value := toFloat(meterValue);
      if value.None? {
        return SaveRaised(FloatValueError);
      }
      if meterId !in users {
        return MeterNotFound;
      }
      var readingTime := ParseDateTime(updateTime);
      if readingTime.None? {
        return SaveRaised(StrptimeValueError);
      }
      if 0 <= readingTime.value.hour < 1 {
        return ReadingInMaintenanceHour;
      }
      if users[meterId].readings.None? {
        users := users[meterId := users[meterId].(readings := Some([]))];
      }
      var account := users[meterId];
      users := users[meterId := account.(readings := Some(account.readings.value + [Reading(updateTime, value.value)]))];
      outcome := Saved;
    }

    /** POST /reading at wall-clock hour `hour`. */
    method PostReading(hour: int, form: ReadingForm, csvUpload: bool,
                       toFloat: string -> Option<Kwh>) returns (outcome: ReadingOutcome)
      requires 0 <= hour < 24
      modifies this
      ensures stopServer <==> hour == 0
      ensures Step(outcome, users) == ReadingStep(old(users), hour, form, csvUpload, toFloat)
    {
      UpdateServerStatus(hour);
      if stopServer {
        return ServerStopped;
      }
      var entry: Option<SaveOutcome> := None;
      if HasEntry(form) {
        if !EntryFilled(form) {
          return EntryFieldsMissing;
        }
        var saved := SaveMeterReading(form.meterId.value, form.meterValue.value, form.updateTime.value, toFloat);
        if saved.SaveRaised? {
          return ReadingRaised(saved.fault);
        }
        entry := Some(saved);
      }
      if csvUpload {
        return ReadingRaised(PandasUndefined);
      }
      outcome := Recorded(entry);
    }

    /** `next((r for r in readings if r["time"] == time), None)`. */
    static method NextWithTime(readings: seq<Reading>, time: string) returns (found: Option<Reading>)
      ensures found == FirstWithTime(readings, time)
      ensures found.None? <==> !HasTime(readings, time)
    {
      var i := 0;
      while i < |readings|
        invariant 0 <= i <= |readings|
        invariant FirstWithTime(readings[i..], time) == FirstWithTime(readings, time)
      {
        if readings[i].time == time {
          return Some(readings[i]);
        }
        assert readings[i..][1..] == readings[i + 1..];
        i := i + 1;
      }
      found := None;
    }

    /** POST /query. */
    method Query(meterId: Option<string>, timestamp: Option<string>) returns (outcome: QueryOutcome)
      ensures outcome == Handlers.Query(users, meterId, timestamp)
    {
      if !Filled(meterId) || !Filled(timestamp) {
        return QueryFieldsMissing;
      }
      var queryTime := ParseDateTime(timestamp.value);
      if queryTime.None? {
        return QueryRaised(StrptimeValueError);
      }
      if meterId.value !in users {
        return QueryMeterNotFound;
      }
      if users[meterId.value].readings.None? {
        return QueryRaised(ReadingsKeyError);
      }
      var readings := users[meterId.value].readings.value;
      var halfHourAgo := MinusHalfHour(queryTime.value);
      if halfHourAgo.None? {
        return QueryRaised(DateOverflow);
      }
      var previous := NextWithTime(readings, Format(halfHourAgo.value));
      var current := NextWithTime(readings, Format(queryTime.value));
      if previous.None? || current.None? {
        return Insufficient;
      }
      outcome := Found(previous.value, current.value);
    }

    /** POST /history. */
    method History(meterId: Option<string>, queryDate: Option<string>) returns (outcome: HistoryOutcome)
      ensures outcome == Handlers.History(users, meterId, queryDate)
    {
      if !Filled(meterId) || !Filled(queryDate) {
        return HistoryFieldsMissing;
      }
      if ParseDate(queryDate.value).None? {
        return HistoryRaised(StrptimeValueError);
      }
      if meterId.value !in users {
        return HistoryMeterNotFound;
      }
      outcome := UsageAcknowledged(queryDate.value);
    }
  }
}
