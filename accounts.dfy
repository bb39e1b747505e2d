/** The in-memory table `user_data`: meter id to account record, each record
    holding the profile given at registration and the list of submitted readings. */
module Accounts {
  import opened Wrappers
  import opened Calendar
  import opened TimeFormat

  /** What `float(meter_value)` produced, kept as the bit pattern of the IEEE-754
      double. The service stores and echoes it and never computes with it. */
  datatype Kwh = Kwh(bits: bv64)

  /** One `{"time": ..., "reading": ...}` entry; `time` is the string as submitted. */
  datatype Reading = Reading(time: string, value: Kwh)

  /** One record of `user_data`. `readings` is `None` when the record has no
      `meter_readings` key (a record loaded from a file written by other means). */
  datatype Account = Account(
    username: string,
    dwellingType: Option<string>,
    region: Option<string>,
    area: Option<string>,
    readings: Option<seq<Reading>>,
    nextUpdate: string)

  type Users = map<string, Account>

  /** The readings of an account, a missing list read as empty. */
  function ReadingsOf(a: Account): seq<Reading> {
    if a.readings.Some? then a.readings.value else []
  }

  predicate HasTime(rs: seq<Reading>, time: string) {
    exists i :: 0 <= i < |rs| && rs[i].time == time
  }

  /** `rs[i]` is the first entry whose time is `time`. */
  predicate IsFirstWithTime(rs: seq<Reading>, time: string, i: int) {
    0 <= i < |rs| && rs[i].time == time && forall j :: 0 <= j < i ==> rs[j].time != time
  }

  /** `next((r for r in rs if r["time"] == time), None)`. */
  function FirstWithTime(rs: seq<Reading>, time: string): (r: Option<Reading>)
    ensures r.None? <==> !HasTime(rs, time)
    ensures r.Some? ==> exists i :: IsFirstWithTime(rs, time, i) && rs[i] == r.value
  {
    if rs == [] then None
    else if rs[0].time == time then
      assert IsFirstWithTime(rs, time, 0);
      Some(rs[0])
    else
      var r := FirstWithTime(rs[1..], time);
      assert HasTime(rs[1..], time) ==> HasTime(rs, time) by {
        if HasTime(rs[1..], time) {
          var i :| 0 <= i < |rs[1..]| && rs[1..][i].time == time;
          assert rs[i + 1].time == time;
        }
      }
      assert HasTime(rs, time) ==> HasTime(rs[1..], time) by {
        if HasTime(rs, time) {
          var i :| 0 <= i < |rs| && rs[i].time == time;
          assert i > 0 && rs[1..][i - 1].time == time;
        }
      }
      assert r.Some? ==> exists i :: IsFirstWithTime(rs, time, i) && rs[i] == r.value by {
        if r.Some? {
          var i :| IsFirstWithTime(rs[1..], time, i) && rs[1..][i] == r.value;
          assert IsFirstWithTime(rs, time, i + 1);
        }
      }
      r
  }

  /** A submitted time the reading handler lets through: it parses, and its hour is not 00. */
  predicate AcceptedTime(time: string) {
    ParseDateTime(time).Some? && ParseDateTime(time).value.hour != 0
  }

  predicate AllAccepted(rs: seq<Reading>) {
    forall i :: 0 <= i < |rs| ==> AcceptedTime(rs[i].time)
  }

  /** What registration and reading insertion establish for every record they
      write: a non-empty meter id, a parseable next-update time, and only
      readings whose times passed the checks. */
  predicate WellFormed(users: Users) {
    forall id :: id in users ==>
      && id != ""
      && ParseDateTime(users[id].nextUpdate).Some?
      && AllAccepted(ReadingsOf(users[id]))
  }

  predicate SameProfile(a: Account, b: Account) {
    && a.username == b.username
    && a.dwellingType == b.dwellingType
    && a.region == b.region
    && a.area == b.area
    && a.nextUpdate == b.nextUpdate
  }

  /** No record is removed, no profile changes, and every reading list only grows at its end. */
  predicate AppendOnly(before: Users, after: Users) {
    && before.Keys <= after.Keys
    && forall id :: id in before ==>
         SameProfile(before[id], after[id]) && ReadingsOf(before[id]) <= ReadingsOf(after[id])
  }
}
