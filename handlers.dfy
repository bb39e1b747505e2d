/** The request handlers of the service, each as a function from the table it
    finds to the outcome it reports and the table it leaves. Flask's redirects,
    flashes and templates become outcome values; an exception that escapes a
    handler (an HTTP 500) becomes a `Raised` outcome naming it. */
module Handlers {
  import opened Wrappers
  import opened Calendar
  import opened TimeFormat
  import opened Accounts

  /** Exceptions the handlers let escape. */
  datatype Fault =
    | FloatValueError     // `float(meter_value)` rejects the text
    | StrptimeValueError  // `strptime` rejects the text
    | ReadingsKeyError    // the record has no `meter_readings` key
    | DateOverflow        // `query_time - timedelta(minutes=30)` falls before year 1
    | PandasUndefined     // `pd` is used but never imported

  /** A step of a handler: what it reports and the table afterwards. */
  datatype Step<O> = Step(outcome: O, users: Users)

  /** Python's truth test on `request.form.get(...)`: present and not empty. */
  predicate Filled(field: Option<string>) {
    field.Some? && field.value != ""
  }

  // ---------------------------------------------------------------------------
  // POST /register

  datatype RegisterForm = RegisterForm(
    username: Option<string>,
    meterId: Option<string>,
    dwellingType: Option<string>,
    region: Option<string>,
    area: Option<string>)

  datatype RegisterOutcome = RequiredFieldsMissing | MeterIdTaken | Registered

  /** The record registration creates; `now` is the wall clock at the request. */
  function NewAccount(form: RegisterForm, now: DateTime): Account
    requires Filled(form.username) && Valid(now)
  {
    Account(form.username.value, form.dwellingType, form.region, form.area, Some([]), Format(now))
  }

  function RegisterStep(users: Users, form: RegisterForm, now: DateTime): (r: Step<RegisterOutcome>)
    requires Valid(now)
    ensures r.outcome == RequiredFieldsMissing <==> !Filled(form.username) || !Filled(form.meterId)
    ensures r.outcome == MeterIdTaken <==>
      Filled(form.username) && Filled(form.meterId) && form.meterId.value in users
    ensures r.outcome != Registered ==> r.users == users
    ensures r.outcome == Registered ==>
      && form.meterId.value !in users
      && r.users.Keys == users.Keys + {form.meterId.value}
      && r.users[form.meterId.value] == NewAccount(form, now)
      && ReadingsOf(r.users[form.meterId.value]) == []
      && (forall id :: id in users ==> r.users[id] == users[id])
  {
    if !Filled(form.username) || !Filled(form.meterId) then Step(RequiredFieldsMissing, users)
    else if form.meterId.value in users then Step(MeterIdTaken, users)
    else Step(Registered, users[form.meterId.value := NewAccount(form, now)])
  }

  // ---------------------------------------------------------------------------
  // save_meter_reading

  datatype SaveOutcome = Saved | MeterNotFound | ReadingInMaintenanceHour | SaveRaised(fault: Fault)

  /** `save_meter_reading(meter_id, meter_value, update_time)`. `toFloat` stands for
      Python's `float`; `None` is its `ValueError`. */
  function SaveStep(users: Users, meterId: string, meterValue: string, updateTime: string,
                    toFloat: string -> Option<Kwh>): (r: Step<SaveOutcome>)
    ensures r.outcome != Saved ==> r.users == users
    ensures toFloat(meterValue).None? ==> r.outcome == SaveRaised(FloatValueError)
    ensures toFloat(meterValue).Some? && meterId !in users ==> r.outcome == MeterNotFound
    ensures toFloat(meterValue).Some? && meterId in users && ParseDateTime(updateTime).None? ==>
      r.outcome == SaveRaised(StrptimeValueError)
    ensures toFloat(meterValue).Some? && meterId in users && ParseDateTime(updateTime).Some? ==>
      (r.outcome == ReadingInMaintenanceHour <==> ParseDateTime(updateTime).value.hour == 0)
    ensures r.outcome == Saved <==>
      toFloat(meterValue).Some? && meterId in users && AcceptedTime(updateTime)
    ensures r.outcome == Saved ==>
      && r.users.Keys == users.Keys
      && (forall id :: id in users && id != meterId ==> r.users[id] == users[id])
      && SameProfile(users[meterId], r.users[meterId])
      && r.users[meterId].readings.Some?
      && ReadingsOf(r.users[meterId]) == ReadingsOf(users[meterId]) + [Reading(updateTime, toFloat(meterValue).value)]
  {
    match toFloat(meterValue)
    case None => Step(SaveRaised(FloatValueError), users)
    case Some(value) =>
      if meterId !in users then Step(MeterNotFound, users)
      else match ParseDateTime(updateTime)
        case None => Step(SaveRaised(StrptimeValueError), users)
        case Some(t) =>
          if 0 <= t.hour < 1 then Step(ReadingInMaintenanceHour, users)
          else
            var account := users[meterId];
            var listed := if account.readings.None? then account.(readings := Some([])) else account;
            var appended := listed.(readings := Some(listed.readings.value + [Reading(updateTime, value)]));
            Step(Saved, users[meterId := appended])
  }

  // ---------------------------------------------------------------------------
  // Maintenance flag and POST /reading

  /** `update_server_status`: the flag is set exactly during 00:00-01:00. */
  function MaintenanceFlag(hour: int): (stopped: bool)
    requires 0 <= hour < 24
    ensures stopped <==> hour == 0
  {
    0 <= hour < 1
  }

  datatype ReadingForm = ReadingForm(meterId: Option<string>, meterValue: Option<string>, updateTime: Option<string>)

  /** The three manual-entry fields are all in the form (`"meter_id" in request.form and ...`). */
  predicate HasEntry(form: ReadingForm) {
    form.meterId.Some? && form.meterValue.Some? && form.updateTime.Some?
  }

  predicate EntryFilled(form: ReadingForm) {
    Filled(form.meterId) && Filled(form.meterValue) && Filled(form.updateTime)
  }

  /** `ServerStopped` and `EntryFieldsMissing` redirect with an error; `Recorded`
      redirects with the success message, whatever the manual entry's own outcome
      (`None` when the form had no manual entry). */
  datatype ReadingOutcome = ServerStopped | EntryFieldsMissing | ReadingRaised(fault: Fault) | Recorded(entry: Option<SaveOutcome>)

  /** POST /reading at wall-clock hour `hour`. `csvUpload` says that the request
      carries a file part named "file" whose name ends in ".csv". */
  function ReadingStep(users: Users, hour: int, form: ReadingForm, csvUpload: bool,
                       toFloat: string -> Option<Kwh>): (r: Step<ReadingOutcome>)
    requires 0 <= hour < 24
    ensures hour == 0 ==> r == Step(ServerStopped, users)
    ensures r.outcome == ServerStopped ==> hour == 0
    ensures hour != 0 && HasEntry(form) && !EntryFilled(form) ==> r == Step(EntryFieldsMissing, users)
    ensures hour != 0 && HasEntry(form) && EntryFilled(form) ==>
      var s := SaveStep(users, form.meterId.value, form.meterValue.value, form.updateTime.value, toFloat);
      && r.users == s.users
      && (s.outcome.SaveRaised? ==> r.outcome == ReadingRaised(s.outcome.fault))
      && (!s.outcome.SaveRaised? ==> r.outcome == if csvUpload then ReadingRaised(PandasUndefined) else Recorded(Some(s.outcome)))
    ensures hour != 0 && !HasEntry(form) ==>
      r == Step(if csvUpload then ReadingRaised(PandasUndefined) else Recorded(None), users)
  {
    if MaintenanceFlag(hour) then Step(ServerStopped, users)
    else if HasEntry(form) && !EntryFilled(form) then Step(EntryFieldsMissing, users)
    else
      var s :=
        if HasEntry(form) then
          var step := SaveStep(users, form.meterId.value, form.meterValue.value, form.updateTime.value, toFloat);
          Step(Some(step.outcome), step.users)
        else Step(None, users);
      if s.outcome.Some? && s.outcome.value.SaveRaised? then Step(ReadingRaised(s.outcome.value.fault), s.users)
      else if csvUpload then Step(ReadingRaised(PandasUndefined), s.users)
      else Step(Recorded(s.outcome), s.users)
  }

  // ---------------------------------------------------------------------------
  // POST /query

  datatype QueryOutcome =
    | QueryFieldsMissing
    | QueryRaised(fault: Fault)
    | QueryMeterNotFound
    | Insufficient
    | Found(previous: Reading, current: Reading)

  function Query(users: Users, meterId: Option<string>, timestamp: Option<string>): (r: QueryOutcome)
    ensures r == QueryFieldsMissing <==> !Filled(meterId) || !Filled(timestamp)
    ensures r == QueryRaised(StrptimeValueError) <==>
      Filled(meterId) && Filled(timestamp) && ParseDateTime(timestamp.value).None?
    ensures r == QueryMeterNotFound <==>
      Filled(meterId) && Filled(timestamp) && ParseDateTime(timestamp.value).Some? && meterId.value !in users
    ensures r == QueryRaised(ReadingsKeyError) <==>
      && Filled(meterId) && Filled(timestamp) && ParseDateTime(timestamp.value).Some?
      && meterId.value in users && users[meterId.value].readings.None?
  {
    if !Filled(meterId) || !Filled(timestamp) then QueryFieldsMissing
    else match ParseDateTime(timestamp.value)
      case None => QueryRaised(StrptimeValueError)
      case Some(t) =>
        if meterId.value !in users then QueryMeterNotFound
        else if users[meterId.value].readings.None? then QueryRaised(ReadingsKeyError)
        else match MinusHalfHour(t)
          case None => QueryRaised(DateOverflow)
          case Some(earlier) =>
            var rs := users[meterId.value].readings.value;
            var previous := FirstWithTime(rs, Format(earlier));
            var current := FirstWithTime(rs, Format(t));
            if previous.None? || current.None? then Insufficient
            else Found(previous.value, current.value)
  }

  // ---------------------------------------------------------------------------
  // POST /history

  datatype HistoryOutcome = HistoryFieldsMissing | HistoryRaised(fault: Fault) | HistoryMeterNotFound | UsageAcknowledged(date: string)

  /** The daily-usage report is a stub: after its checks it acknowledges the date. */
  function History(users: Users, meterId: Option<string>, queryDate: Option<string>): (r: HistoryOutcome)
    ensures r == HistoryFieldsMissing <==> !Filled(meterId) || !Filled(queryDate)
    ensures r == HistoryRaised(StrptimeValueError) <==>
      Filled(meterId) && Filled(queryDate) && ParseDate(queryDate.value).None?
    ensures r == HistoryMeterNotFound <==>
      Filled(meterId) && Filled(queryDate) && ParseDate(queryDate.value).Some? && meterId.value !in users
    ensures r.UsageAcknowledged? <==>
      Filled(meterId) && Filled(queryDate) && ParseDate(queryDate.value).Some? && meterId.value in users
    ensures r.UsageAcknowledged? ==> r.date == queryDate.value
  {
    if !Filled(meterId) || !Filled(queryDate) then HistoryFieldsMissing
    else if ParseDate(queryDate.value).None? then HistoryRaised(StrptimeValueError)
    else if meterId.value !in users then HistoryMeterNotFound
    else UsageAcknowledged(queryDate.value)
  }
}
