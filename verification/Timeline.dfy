/** The activation timeline of backend/app/services/dashboard.py: distinct users per UTC day, bucketed in memory. */
module Timeline {
  import opened Schedule

  /** One audit row joined with its assignment and role. */
  datatype LogRow = LogRow(timestamp: int, action: string, result: string, targetType: string, user: nat,
                           resourceType: string, privileged: bool)

  /** The activation of a privileged role. */
  predicate IsActivation(r: LogRow) {
    && r.action == "ASSIGNMENT_ACTIVATED" && r.result == "SUCCESS" && r.targetType == "ASSIGNMENT"
    && r.resourceType == "ROLE" && r.privileged
  }

  /** The UTC day an instant falls in. */
  function DayOf(t: int): (day: int)
    ensures day * DAY <= t < (day + 1) * DAY
  {
    t / DAY
  }

  /** The number of days nearest to what was asked for that the timeline allows. */
  function Clamp(days: int): (n: int)
    ensures 1 <= n <= 90 && (1 <= days <= 90 ==> n == days) && (days < 1 ==> n == 1) && (90 < days ==> n == 90)
  {
    if days < 1 then 1 else if days > 90 then 90 else days
  }

  function Since(now: int, days: int): int { now - (Clamp(days) - 1) * DAY }

  /** The rows the query selects. */
  function Selected(log: seq<LogRow>, since: int): seq<LogRow> {
    if log == [] then []
    else Selected(log[..|log| - 1], since)
         + (if IsActivation(log[|log| - 1]) && since <= log[|log| - 1].timestamp then [log[|log| - 1]] else [])
  }

  /** The query selects the successful activations of assignments of privileged roles since the cut, nothing else. */
  lemma {:induction false} SelectedExactly(log: seq<LogRow>, since: int, r: LogRow)
    ensures r in Selected(log, since) <==> r in log && IsActivation(r) && since <= r.timestamp
    ensures r in Selected(log, since) <==>
              && r in log && since <= r.timestamp && r.action == "ASSIGNMENT_ACTIVATED" && r.result == "SUCCESS"
              && r.targetType == "ASSIGNMENT" && r.resourceType == "ROLE" && r.privileged
  {
    if log != [] {
      SelectedExactly(log[..|log| - 1], since, r);
      assert log == log[..|log| - 1] + [log[|log| - 1]];
    }
  }

  /** The users with a row on a day. */
  function UsersOn(rows: seq<LogRow>, day: int): set<nat> {
    set r | r in rows && DayOf(r.timestamp) == day :: r.user
  }

  /** Everybody who activated a privileged role on a day, straight from the whole log. */
  function ActiveOn(log: seq<LogRow>, day: int): set<nat> {
    set r | r in log && IsActivation(r) && DayOf(r.timestamp) == day :: r.user
  }

  datatype Point = Point(day: int, count: nat)

  function Bucket(users: map<int, set<nat>>, day: int): set<nat> {
    if day in users then users[day] else {}
  }

  /** `get_privileged_role_activation_timeline`, with the clock readings before and after the query: as many points as
      the clamped number of days, one for each consecutive day up to today, each counting the distinct users of that
      day's selected rows. */
  method ActivationTimeline(log: seq<LogRow>, days: int, before: int, after: int) returns (n: int, series: seq<Point>)
    ensures n == Clamp(days) && |series| == n
    ensures forall i :: 0 <= i < n ==>
              && series[i].day == DayOf(after) - (n - 1) + i
              && series[i].count == |UsersOn(Selected(log, Since(before, days)), series[i].day)|
  {
    hide Selected, UsersOn, DayOf, Clamp;
    n := Clamp(days);
    var rows := Selected(log, Since(before, days));
    var users: map<int, set<nat>> := map[];
    NobodyWithoutRows();
    assert rows[..0] == [];
    for k := 0 to |rows|
      invariant forall day :: Bucket(users, day) == UsersOn(rows[..k], day)
    {
      assert rows[..k + 1] == rows[..k] + [rows[k]];
      var day := DayOf(rows[k].timestamp);
      var next := users[day := Bucket(users, day) + {rows[k].user}];
      forall d: int
        ensures Bucket(next, d) == UsersOn(rows[..k + 1], d)
      {
        UsersWithOneMore(rows[..k], rows[k], d);
        assert Bucket(users, d) == UsersOn(rows[..k], d);
      }
      users := next;
    }
    assert rows[..|rows|] == rows;
    var today := DayOf(after);
    series := [];
    for offset := n downto 0
      invariant |series| == n - offset
      invariant forall i :: 0 <= i < |series| ==>
                  series[i] == Point(today - (n - 1) + i, |UsersOn(rows, today - (n - 1) + i)|)
    {
      series := series + [Point(today - offset, |Bucket(users, today - offset)|)];
    }
  }

  lemma NobodyWithoutRows()
    ensures forall day :: UsersOn([], day) == {}
  {
  }

  lemma UsersWithOneMore(rows: seq<LogRow>, r: LogRow, day: int)
    ensures UsersOn(rows + [r], day) == UsersOn(rows, day) + (if day == DayOf(r.timestamp) then {r.user} else {})
  {
    forall user: nat
      ensures user in UsersOn(rows + [r], day)
              <==> user in UsersOn(rows, day) + (if day == DayOf(r.timestamp) then {r.user} else {})
    {
      if user in UsersOn(rows, day) {
        var x :| x in rows && DayOf(x.timestamp) == day && x.user == user;
        assert x in rows + [r];
      }
      if day == DayOf(r.timestamp) && user == r.user {
        assert r in rows + [r];
      }
    }
  }

  /** Under one clock reading every selected row that is not in the future falls on a day of the series. */
  lemma NoSelectedRowIsLost(now: int, days: int, t: int)
    requires Since(now, days) <= t <= now
    ensures DayOf(now) - (Clamp(days) - 1) <= DayOf(t) <= DayOf(now)
    ensures DayOf(Since(now, days)) == DayOf(now) - (Clamp(days) - 1)
  {
    SinceDay(now, Clamp(days) - 1);
  }

  lemma SinceDay(now: int, k: int)
    ensures (now - k * DAY) / DAY == now / DAY - k
  {
    assert now - k * DAY == (now / DAY - k) * DAY + now % DAY;
  }

  /** On every day of the series but the first, the point counts everybody who was active that day. */
  lemma LaterDaysAreComplete(log: seq<LogRow>, now: int, days: int, day: int)
    requires DayOf(now) - (Clamp(days) - 1) < day
    ensures UsersOn(Selected(log, Since(now, days)), day) == ActiveOn(log, day)
  {
    SinceDay(now, Clamp(days) - 1);
    var since := Since(now, days);
    forall r: LogRow
      ensures r in Selected(log, since) <==> r in log && IsActivation(r) && since <= r.timestamp
    {
      SelectedExactly(log, since, r);
    }
  }

  /** A user whose activations on a day all came before the cut. */
  predicate OnlyBefore(log: seq<LogRow>, day: int, since: int, user: nat) {
    && user in ActiveOn(log, day)
    && forall r :: r in log && IsActivation(r) && DayOf(r.timestamp) == day && r.user == user ==> r.timestamp < since
  }

  /** The first day is cut at the present time of day, so its point is complete exactly when nobody was active on that
      day only before the cut. */
  lemma FirstDayIsCompleteExactly(log: seq<LogRow>, now: int, days: int)
    ensures var since := Since(now, days); var first := DayOf(since);
            |UsersOn(Selected(log, since), first)| == |ActiveOn(log, first)|
            <==> forall user: nat :: !OnlyBefore(log, first, since, user)
  {
    var since := Since(now, days);
    var first := DayOf(since);
    var counted, active := UsersOn(Selected(log, since), first), ActiveOn(log, first);
    forall r: LogRow
      ensures r in Selected(log, since) <==> r in log && IsActivation(r) && since <= r.timestamp
    {
      SelectedExactly(log, since, r);
    }
    assert counted <= active;
    forall user: nat
      ensures OnlyBefore(log, first, since, user) <==> user in active && user !in counted
    {
    }
    if forall user: nat :: !OnlyBefore(log, first, since, user) {
      assert counted == active;
    } else if |counted| == |active| {
      SubsetOfSameSize(counted, active);
    }
  }

  lemma SubsetOfSameSize(a: set<nat>, b: set<nat>)
    requires a <= b && |a| == |b|
    ensures a == b
  {
    assert |b - a| == |b| - |a|;
  }

  /** A selected row is missing from the series exactly when its day is one of the first days of the selection, as many
      as midnights passed between the two clock readings. */
  lemma RowIsLostExactly(before: int, after: int, days: int, t: int)
    requires Since(before, days) <= t <= before <= after
    ensures !(DayOf(after) - (Clamp(days) - 1) <= DayOf(t) <= DayOf(after))
            <==> DayOf(t) - DayOf(Since(before, days)) < DayOf(after) - DayOf(before)
  {
    SinceDay(before, Clamp(days) - 1);
  }
}
