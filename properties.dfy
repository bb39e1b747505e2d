/** Properties of the handlers that relate several calls, or a call to the
    calendar's reference timeline. */
module HandlerProperties {
  import opened Wrappers
  import opened Calendar
  import opened TimeFormat
  import opened Accounts
  import opened Handlers

  // ---------------------------------------------------------------------------
  // The table only grows, and keeps what registration and insertion establish

  lemma RegisterKeepsInvariants(users: Users, form: RegisterForm, now: DateTime)
    requires Valid(now)
    ensures AppendOnly(users, RegisterStep(users, form, now).users)
    ensures WellFormed(users) ==> WellFormed(RegisterStep(users, form, now).users)
  {
    var r := RegisterStep(users, form, now);
    if r.outcome == Registered {
      ParseFormat(now);
      assert forall id :: id in users ==> r.users[id] == users[id];
    }
  }

  lemma SaveKeepsInvariants(users: Users, meterId: string, meterValue: string, updateTime: string,
                            toFloat: string -> Option<Kwh>)
    ensures AppendOnly(users, SaveStep(users, meterId, meterValue, updateTime, toFloat).users)
    ensures WellFormed(users) ==> WellFormed(SaveStep(users, meterId, meterValue, updateTime, toFloat).users)
  {
    var r := SaveStep(users, meterId, meterValue, updateTime, toFloat);
    if r.outcome == Saved {
      var before := ReadingsOf(users[meterId]);
      var added := Reading(updateTime, toFloat(meterValue).value);
      assert before <= before + [added];
      if WellFormed(users) {
        AcceptedAppend(before, added);
      }
    }
  }

  lemma AcceptedAppend(rs: seq<Reading>, x: Reading)
    requires AllAccepted(rs) && AcceptedTime(x.time)
    ensures AllAccepted(rs + [x])
  {
    forall i | 0 <= i < |rs + [x]| ensures AcceptedTime((rs + [x])[i].time) {
      if i < |rs| {
        assert (rs + [x])[i] == rs[i];
      }
    }
  }

  lemma ReadingKeepsInvariants(users: Users, hour: int, form: ReadingForm, csvUpload: bool,
                               toFloat: string -> Option<Kwh>)
    requires 0 <= hour < 24
    ensures AppendOnly(users, ReadingStep(users, hour, form, csvUpload, toFloat).users)
    ensures WellFormed(users) ==> WellFormed(ReadingStep(users, hour, form, csvUpload, toFloat).users)
  {
    if hour != 0 && HasEntry(form) && EntryFilled(form) {
      SaveKeepsInvariants(users, form.meterId.value, form.meterValue.value, form.updateTime.value, toFloat);
    }
  }

  // ---------------------------------------------------------------------------
  // Registration and insertion across calls

  /** Registering a meter id a second time is rejected and leaves the first record as it was. */
  lemma RegisteringTwiceIsRejected(users: Users, form: RegisterForm, now: DateTime,
                                   again: RegisterForm, later: DateTime)
    requires Valid(now) && Valid(later)
    requires RegisterStep(users, form, now).outcome == Registered
    requires Filled(again.username) && again.meterId == form.meterId
    ensures RegisterStep(RegisterStep(users, form, now).users, again, later)
         == Step(MeterIdTaken, RegisterStep(users, form, now).users)
    ensures RegisterStep(users, form, now).users[form.meterId.value] == NewAccount(form, now)
  {
  }

  /** A submission refused during the maintenance hour is accepted, unchanged,
      at any other hour. */
  lemma AcceptedAfterMaintenance(users: Users, hour: int, form: ReadingForm, toFloat: string -> Option<Kwh>)
    requires 0 < hour < 24
    requires EntryFilled(form) && form.meterId.value in users
    requires toFloat(form.meterValue.value).Some? && AcceptedTime(form.updateTime.value)
    ensures ReadingStep(users, 0, form, false, toFloat) == Step(ServerStopped, users)
    ensures ReadingStep(users, hour, form, false, toFloat).outcome == Recorded(Some(Saved))
    ensures ReadingsOf(ReadingStep(users, hour, form, false, toFloat).users[form.meterId.value])
         == ReadingsOf(users[form.meterId.value]) + [Reading(form.updateTime.value, toFloat(form.meterValue.value).value)]
  {
  }

  // ---------------------------------------------------------------------------
  // The query against the timeline

  /** The query looks for the instant named by the timestamp and the instant 1800
      seconds before it, each by its canonical string: it reports both readings
      exactly when both strings occur, each the first occurrence, and
      "insufficient" otherwise. */
  lemma QueryMatchesExactInstants(users: Users, meterId: string, timestamp: string, t: DateTime, e: DateTime)
    requires meterId != "" && timestamp != ""
    requires meterId in users && users[meterId].readings.Some?
    requires ParseDateTime(timestamp) == Some(t)
    requires Valid(e) && Seconds(e) == Seconds(t) - HalfHour
    ensures var q := Query(users, Some(meterId), Some(timestamp));
            var rs := users[meterId].readings.value;
      && (q.Found? <==> HasTime(rs, Format(e)) && HasTime(rs, Format(t)))
      && (q == Insufficient <==> !HasTime(rs, Format(e)) || !HasTime(rs, Format(t)))
      && (q.Found? ==>
            && (exists i :: IsFirstWithTime(rs, Format(e), i) && rs[i] == q.previous)
            && (exists i :: IsFirstWithTime(rs, Format(t), i) && rs[i] == q.current))
  {
    HalfHourEarlierUnique(t, e);
  }

  /** The back-step raises only for a timestamp in the first half hour of 0001-01-01. */
  lemma QueryOverflowsOnlyAtCalendarStart(users: Users, meterId: string, timestamp: string, t: DateTime)
    requires meterId != "" && timestamp != ""
    requires meterId in users && users[meterId].readings.Some?
    requires ParseDateTime(timestamp) == Some(t)
    ensures Query(users, Some(meterId), Some(timestamp)) == QueryRaised(DateOverflow) <==> Seconds(t) < HalfHour
  {
    HalfHourEarlier(t);
  }

  /** Only readings stored under a canonical time string can be reported: one
      submitted as, say, "2025-1-1 9:5:7" is stored but never found. */
  lemma QueryReportsCanonicalTimes(users: Users, meterId: Option<string>, timestamp: Option<string>)
    ensures var q := Query(users, meterId, timestamp);
      q.Found? ==> Canonical(q.previous.time) && Canonical(q.current.time)
  {
    var q := Query(users, meterId, timestamp);
    if q.Found? {
      var t := ParseDateTime(timestamp.value).value;
      var e := MinusHalfHour(t).value;
      HalfHourEarlier(t);
      var rs := users[meterId.value].readings.value;
      assert q.previous.time == Format(e) && q.current.time == Format(t) by {
        var i :| IsFirstWithTime(rs, Format(e), i) && rs[i] == q.previous;
        var k :| IsFirstWithTime(rs, Format(t), k) && rs[k] == q.current;
      }
      FormatIsCanonical(e);
      FormatIsCanonical(t);
    }
  }

  /** A reading saved under a canonical time, the first at that time, is what a
      query at that time reports as the current reading; the query succeeds as
      soon as the half-hour-earlier reading is also present. */
  lemma SavedReadingIsQueried(users: Users, meterId: string, meterValue: string, time: string,
                              toFloat: string -> Option<Kwh>, e: DateTime)
    requires SaveStep(users, meterId, meterValue, time, toFloat).outcome == Saved
    requires meterId != "" && Canonical(time)
    requires !HasTime(ReadingsOf(users[meterId]), time)
    requires Valid(e) && Seconds(e) == Seconds(ParseDateTime(time).value) - HalfHour
    ensures var q := Query(SaveStep(users, meterId, meterValue, time, toFloat).users, Some(meterId), Some(time));
      && (q.Found? || q == Insufficient)
      && (q.Found? ==> q.current == Reading(time, toFloat(meterValue).value))
      && (HasTime(ReadingsOf(users[meterId]), Format(e)) ==> q.Found?)
  {
    var after := SaveStep(users, meterId, meterValue, time, toFloat).users;
    var t := ParseDateTime(time).value;
    var before, rs := ReadingsOf(users[meterId]), after[meterId].readings.value;
    var added := Reading(time, toFloat(meterValue).value);
    assert rs == before + [added];
    FormatIsCanonical(t);
    assert time == Format(t);
    QueryMatchesExactInstants(after, meterId, time, t, e);
    assert rs[|before|] == added;
    assert HasTime(rs, Format(t));
    var q := Query(after, Some(meterId), Some(time));
    if q.Found? {
      var k :| IsFirstWithTime(rs, Format(t), k) && rs[k] == q.current;
      assert k == |before|;
    }
    if HasTime(before, Format(e)) {
      var j :| 0 <= j < |before| && before[j].time == Format(e);
      assert rs[j].time == Format(e);
    }
  }

  // ---------------------------------------------------------------------------
  // The worked scenario: readings at 10:00 (3.5 kWh) and 10:30 (4.0 kWh)

  const At1000 := Reading("2025-01-01 10:00:00", Kwh(0x400C_0000_0000_0000))
  const At1030 := Reading("2025-01-01 10:30:00", Kwh(0x4010_0000_0000_0000))

  function ScenarioUsers(): Users {
    map["M1" := Account("owner", None, None, None, Some([At1000, At1030]), "2025-01-01 09:00:00")]
  }

  lemma ScenarioTimeAt1000()
    ensures Format(DateTime(2025, 1, 1, 10, 0, 0)) == "2025-01-01 10:00:00"
  {
    assert Digits4(2025) == "2025" && Digits2(1) == "01" && Digits2(10) == "10" && Digits2(0) == "00";
  }

  lemma ScenarioTimeAt1030()
    ensures ParseDateTime("2025-01-01 10:30:00") == Some(DateTime(2025, 1, 1, 10, 30, 0))
    ensures Format(DateTime(2025, 1, 1, 10, 30, 0)) == "2025-01-01 10:30:00"
  {
    assert Layout(DateTime(2025, 1, 1, 10, 30, 0)) == "2025-01-01 10:30:00" by {
      assert Digits4(2025) == "2025" && Digits2(1) == "01" && Digits2(10) == "10";
      assert Digits2(30) == "30" && Digits2(0) == "00";
    }
    ParseOfLayout(DateTime(2025, 1, 1, 10, 30, 0), "2025-01-01 10:30:00");
  }

  lemma ScenarioTimeAt1100()
    ensures ParseDateTime("2025-01-01 11:00:00") == Some(DateTime(2025, 1, 1, 11, 0, 0))
    ensures Format(DateTime(2025, 1, 1, 11, 0, 0)) == "2025-01-01 11:00:00"
  {
    assert Layout(DateTime(2025, 1, 1, 11, 0, 0)) == "2025-01-01 11:00:00" by {
      assert Digits4(2025) == "2025" && Digits2(1) == "01" && Digits2(11) == "11" && Digits2(0) == "00";
    }
    ParseOfLayout(DateTime(2025, 1, 1, 11, 0, 0), "2025-01-01 11:00:00");
  }

  /** The first-match lookups on the scenario's two readings. */
  lemma ScenarioLookups()
    ensures FirstWithTime([At1000, At1030], "2025-01-01 10:00:00") == Some(At1000)
    ensures FirstWithTime([At1000, At1030], "2025-01-01 10:30:00") == Some(At1030)
    ensures FirstWithTime([At1000, At1030], "2025-01-01 11:00:00") == None
  {
    assert At1000.time[14] != "2025-01-01 10:30:00"[14];
    assert At1000.time[12] != "2025-01-01 11:00:00"[12];
    assert At1030.time[12] != "2025-01-01 11:00:00"[12];
  }

  /** Querying 10:30 reports both readings ... */
  lemma ScenarioQueryFound()
    ensures Query(ScenarioUsers(), Some("M1"), Some("2025-01-01 10:30:00")) == Found(At1000, At1030)
  {
    ScenarioTimeAt1000();
    ScenarioTimeAt1030();
    ScenarioLookups();
    assert MinusHalfHour(DateTime(2025, 1, 1, 10, 30, 0)) == Some(DateTime(2025, 1, 1, 10, 0, 0));
    QueryLooksUp(ScenarioUsers(), "M1", "2025-01-01 10:30:00", DateTime(2025, 1, 1, 10, 30, 0), DateTime(2025, 1, 1, 10, 0, 0));
  }

  /** ... and querying 11:00 reports insufficient data, since nothing was read at 11:00. */
  lemma ScenarioQueryInsufficient()
    ensures Query(ScenarioUsers(), Some("M1"), Some("2025-01-01 11:00:00")) == Insufficient
  {
    ScenarioTimeAt1030();
    ScenarioTimeAt1100();
    ScenarioLookups();
    assert MinusHalfHour(DateTime(2025, 1, 1, 11, 0, 0)) == Some(DateTime(2025, 1, 1, 10, 30, 0));
    QueryLooksUp(ScenarioUsers(), "M1", "2025-01-01 11:00:00", DateTime(2025, 1, 1, 11, 0, 0), DateTime(2025, 1, 1, 10, 30, 0));
  }

  /** The query on a parsed timestamp with a known half-hour-earlier instant. */
  lemma QueryLooksUp(users: Users, meterId: string, timestamp: string, t: DateTime, e: DateTime)
    requires meterId != "" && timestamp != ""
    requires meterId in users && users[meterId].readings.Some?
    requires ParseDateTime(timestamp) == Some(t) && MinusHalfHour(t) == Some(e)
    ensures var rs := users[meterId].readings.value;
      var previous, current := FirstWithTime(rs, Format(e)), FirstWithTime(rs, Format(t));
      Query(users, Some(meterId), Some(timestamp))
        == if previous.None? || current.None? then Insufficient else Found(previous.value, current.value)
  {
  }

  // ---------------------------------------------------------------------------
  // The history stub

  /** The acknowledgement depends only on which meter ids exist, never on readings. */
  lemma HistoryIgnoresReadings(u1: Users, u2: Users, meterId: Option<string>, queryDate: Option<string>)
    requires u1.Keys == u2.Keys
    ensures History(u1, meterId, queryDate) == History(u2, meterId, queryDate)
  {
  }
}
