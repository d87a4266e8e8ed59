/** Weekly access schedules: when one is active, and which profiles are. */
module Schedule {

  datatype AccessTime = AccessTime(hour: nat, minute: nat)

  type Days = d: seq<bool> | |d| == 7 witness [false, false, false, false, false, false, false]

  datatype RoleAccessSchedule = RoleAccessSchedule(days: Days, from: AccessTime, to: AccessTime, accessProfile: string)

  /** A moment of the week, as the clock gives it. */
  datatype RawMoment = Moment(weekday: nat, hour: nat, minute: nat)

  type Moment = m: RawMoment | m.weekday < 7 && m.hour < 24 && m.minute < 60 witness RawMoment.Moment(0, 0, 0)

  const DAY: nat := 1440
  const WEEK: nat := 10080

  /** Minutes since midnight, in 16 bits. */
  function Minutes(hour: nat, minute: nat): nat {
    (hour * 60 + minute) % 0x1_0000
  }

  predicate IsScheduleActive(schedule: RoleAccessSchedule, now: Moment) {
    var nowMinutes := Minutes(now.hour, now.minute);
    var fromMinutes := Minutes(schedule.from.hour, schedule.from.minute);
    var toMinutes := Minutes(schedule.to.hour, schedule.to.minute);
    if fromMinutes <= toMinutes then
      schedule.days[now.weekday] && fromMinutes <= nowMinutes <= toMinutes
    else if nowMinutes >= fromMinutes then
      schedule.days[now.weekday]
    else if nowMinutes <= toMinutes then
      schedule.days[(now.weekday + 6) % 7]
    else
      false
  }

  // ----- Minutes of the week

  predicate OnTheClock(t: AccessTime) {
    t.hour < 24 && t.minute < 60
  }

  function MinuteOfWeek(now: Moment): nat {
    now.weekday * DAY + now.hour * 60 + now.minute
  }

  function From(schedule: RoleAccessSchedule): nat {
    Minutes(schedule.from.hour, schedule.from.minute)
  }

  function To(schedule: RoleAccessSchedule): nat {
    Minutes(schedule.to.hour, schedule.to.minute)
  }

  predicate Overnight(schedule: RoleAccessSchedule) {
    To(schedule) < From(schedule)
  }

  function Min(a: nat, b: nat): nat {
    if a < b then a else b
  }

  /** The start of the window of a day, at the latest the next midnight when it lasts overnight. */
  function Opens(schedule: RoleAccessSchedule, day: nat): nat {
    day * DAY + if Overnight(schedule) then Min(From(schedule), DAY) else From(schedule)
  }

  /** Its end: in the last minute of a day at the latest, the next day when it lasts overnight. */
  function Closes(schedule: RoleAccessSchedule, day: nat): nat {
    (if Overnight(schedule) then day + 1 else day) * DAY + Min(To(schedule), DAY - 1)
  }

  /** `m` is a minute of the timeline that falls on `now` of the week, inside the window of `day`. */
  predicate WindowHolds(schedule: RoleAccessSchedule, day: nat, now: Moment, m: nat) {
    day < 7 && schedule.days[day] && m % WEEK == MinuteOfWeek(now) && Opens(schedule, day) <= m <= Closes(schedule, day)
  }

  lemma OnTheClockMinutes(t: AccessTime)
    requires OnTheClock(t)
    ensures Minutes(t.hour, t.minute) == t.hour * 60 + t.minute < DAY
  {
  }

  /** For times on the clock the window runs from the one to the next occurrence of the other. */
  lemma ClockWindow(schedule: RoleAccessSchedule, day: nat)
    requires OnTheClock(schedule.from) && OnTheClock(schedule.to)
    ensures
      var from := day * DAY + schedule.from.hour * 60 + schedule.from.minute;
      var to := day * DAY + schedule.to.hour * 60 + schedule.to.minute;
      Opens(schedule, day) == from && Closes(schedule, day) == if to < from then to + DAY else to
  {
    OnTheClockMinutes(schedule.from);
    OnTheClockMinutes(schedule.to);
  }

  lemma SameMinute(m: nat, w: nat)
    requires m < 2 * WEEK && w < WEEK && m % WEEK == w
    ensures m == w || m == w + WEEK
  {
  }

  /** In minutes of the day: the window of `day` reaches minute `n` of weekday `d` on that day, or
    * after midnight on the next. */
  lemma WindowReaches(schedule: RoleAccessSchedule, day: nat, d: nat, n: nat, m: nat)
    requires n < DAY && day < 7 && d < 7 && m % WEEK == d * DAY + n
    requires Opens(schedule, day) <= m <= Closes(schedule, day)
    ensures
      var f, t := From(schedule), To(schedule);
      (d == day && f <= n && (f <= t ==> n <= t)) || (t < f && n < f && n <= t && day == (d + 6) % 7)
  {
    SameMinute(m, d * DAY + n);
  }

  lemma WindowIsActive(schedule: RoleAccessSchedule, now: Moment, day: nat, m: nat)
    requires WindowHolds(schedule, day, now, m)
    ensures IsScheduleActive(schedule, now)
  {
    OnTheClockMinutes(AccessTime(now.hour, now.minute));
    WindowReaches(schedule, day, now.weekday, Minutes(now.hour, now.minute), m);
  }

  lemma ActiveHasWindow(schedule: RoleAccessSchedule, now: Moment) returns (day: nat, m: nat)
    requires IsScheduleActive(schedule, now)
    ensures WindowHolds(schedule, day, now, m)
  {
    OnTheClockMinutes(AccessTime(now.hour, now.minute));
    var w := MinuteOfWeek(now);
    assert w % WEEK == (w + WEEK) % WEEK == w;
    if From(schedule) <= now.hour * 60 + now.minute {
      day, m := now.weekday, w;
    } else if now.weekday == 0 {
      day, m := 6, w + WEEK;
    } else {
      day, m := now.weekday - 1, w;
    }
  }

  /** A schedule is active exactly when now lies, modulo a week, in the window of an enabled day. */
  lemma ActiveExactly(schedule: RoleAccessSchedule, now: Moment)
    ensures IsScheduleActive(schedule, now) <==> exists day, m :: WindowHolds(schedule, day, now, m)
  {
    if IsScheduleActive(schedule, now) {
      var day, m := ActiveHasWindow(schedule, now);
    }
    if exists day, m :: WindowHolds(schedule, day, now, m) {
      var day, m :| WindowHolds(schedule, day, now, m);
      WindowIsActive(schedule, now, day, m);
    }
  }

  // ----- The active profiles

  function ActiveProfiles(schedules: seq<RoleAccessSchedule>, now: Moment): seq<string> {
    if schedules == [] then []
    else
      var last := schedules[|schedules| - 1];
      var before := ActiveProfiles(schedules[..|schedules| - 1], now);
      if IsScheduleActive(last, now) && last.accessProfile !in before then before + [last.accessProfile] else before
  }

  method GetActiveAccessProfiles(schedules: seq<RoleAccessSchedule>, now: Moment) returns (ap: seq<string>)
    ensures ap == ActiveProfiles(schedules, now)
  {
    ap := [];
    for i := 0 to |schedules|
      invariant ap == ActiveProfiles(schedules[..i], now)
    {
      assert schedules[..i + 1][..i] == schedules[..i];
      var s := schedules[i];
      if IsScheduleActive(s, now) && s.accessProfile !in ap {
        ap := ap + [s.accessProfile];
      }
    }
    assert schedules[..|schedules|] == schedules;
  }

  predicate ActiveAt(schedules: seq<RoleAccessSchedule>, now: Moment, i: nat, p: string) {
    i < |schedules| && IsScheduleActive(schedules[i], now) && schedules[i].accessProfile == p
  }

  /** `i` is where `p` is active first. */
  ghost predicate FirstActive(schedules: seq<RoleAccessSchedule>, now: Moment, i: nat, p: string) {
    ActiveAt(schedules, now, i, p) && forall k :: 0 <= k < i ==> !ActiveAt(schedules, now, k, p)
  }

  lemma FirstActivePrefix(schedules: seq<RoleAccessSchedule>, now: Moment, n: nat, i: nat, p: string)
    requires i < n <= |schedules|
    ensures ActiveAt(schedules[..n], now, i, p) == ActiveAt(schedules, now, i, p)
    ensures FirstActive(schedules[..n], now, i, p) == FirstActive(schedules, now, i, p)
  {
    assert forall k :: 0 <= k <= i ==> ActiveAt(schedules[..n], now, k, p) == ActiveAt(schedules, now, k, p);
  }

  lemma {:induction false} ActiveIsListed(schedules: seq<RoleAccessSchedule>, now: Moment, p: string)
    ensures p in ActiveProfiles(schedules, now) <==> exists i :: ActiveAt(schedules, now, i, p)
  {
    if schedules == [] {
    } else {
      var last := |schedules| - 1;
      ActiveIsListed(schedules[..last], now, p);
      forall i: nat | i < last
        ensures ActiveAt(schedules[..last], now, i, p) == ActiveAt(schedules, now, i, p)
      {
        FirstActivePrefix(schedules, now, last, i, p);
      }
      assert forall i :: ActiveAt(schedules[..last], now, i, p) ==> ActiveAt(schedules, now, i, p);
      if ActiveAt(schedules, now, last, p) {
        assert p in ActiveProfiles(schedules, now);
      }
    }
  }

  /** Each active profile is listed exactly once, in the order in which the profiles first occur. */
  lemma {:induction false} ActiveProfilesInOrder(schedules: seq<RoleAccessSchedule>,
      now: Moment) returns (firsts: seq<nat>)
    ensures
      var ap := ActiveProfiles(schedules, now);
      && |firsts| == |ap| && (forall a :: 0 <= a < |ap| ==> FirstActive(schedules, now, firsts[a], ap[a]))
      && (forall a, b :: 0 <= a < b < |ap| ==> firsts[a] < firsts[b] && ap[a] != ap[b])
  {
    firsts := [];
    if schedules != [] {
      var last := |schedules| - 1;
      var init, p := schedules[..last], schedules[last].accessProfile;
      firsts := ActiveProfilesInOrder(init, now);
      var before := ActiveProfiles(init, now);
      forall a | 0 <= a < |before|
        ensures FirstActive(schedules, now, firsts[a], before[a])
      {
        FirstActivePrefix(schedules, now, last, firsts[a], before[a]);
      }
      if IsScheduleActive(schedules[last], now) && p !in before {
        ActiveIsListed(init, now, p);
        forall k | 0 <= k < last
          ensures !ActiveAt(schedules, now, k, p)
        {
          FirstActivePrefix(schedules, now, last, k, p);
        }
        firsts := firsts + [last];
      }
    }
  }
}
