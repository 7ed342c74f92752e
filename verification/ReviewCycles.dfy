/** What becomes of the calendar of a schedule when the engine serves it, on time or late. */
module ReviewCycles {
  import opened Wrappers
  import opened Schedule
  import opened ReviewRows
  import opened ReviewModel
  import opened ReviewInvariant
  import opened ReviewRuns
  import opened ReviewSweeps

  // ----- every next run is a slot of its schedule

  /** A row that holds a schedule runs next at a slot of it. */
  ghost predicate HoldsSlot(z: Zone, r: Campaign)
    requires RowShape(r)
  {
    r.nextRunAt.Some? ==> exists m: nat :: r.nextRunAt == Some(SlotUtc(z, TimingOf(r), m))
  }

  ghost predicate HoldSlots(z: Zone, s: Store)
    requires WellFormed(s)
  {
    forall i :: 0 <= i < |s.campaigns| ==> HoldsSlot(z, s.campaigns[i])
  }

  /** The program's time zone at a step that looks at it. */
  ghost predicate InZone(z: Zone, step: Step) {
    match step
    case CreateStep(_, env) => env.zone == z
    case UpdateStep(_, _, env) => env.zone == z
    case ScheduledStep(env) => env.zone == z
    case _ => true
  }

  lemma NextRunIsASlot(z: Zone, g: Timing, now: Instant)
    ensures exists m: nat :: NextRun(z, g, now) == SlotUtc(z, g, m)
  {
    var m := FirstSlotMonth(z, g, now, MonthOf(z.ToLocal(now)));
    assert NextRun(z, g, now) == SlotUtc(z, g, m);
  }

  /** A row that runs next at the following run of its own schedule holds a slot. */
  lemma FollowingHoldsSlot(r: Campaign, g: Timing, env: Env)
    requires RowShape(r) && r.scheduleDay.Some? && TimingOf(r) == g
    requires r.nextRunAt == Some(NextRun(env.zone, g, env.now))
    ensures HoldsSlot(env.zone, r)
  {
    NextRunIsASlot(env.zone, g, env.now);
    hide NextRun, SlotUtc, RowShape;
  }

  lemma NewRowHoldsSlot(f: Form, env: Env)
    requires ValidForm(f)
    ensures HoldsSlot(env.zone, NewRow(f, env))
  {
    hide NextRun, SlotUtc, ValidForm;
    if f.scheduleDay.Some? {
      FollowingHoldsSlot(NewRow(f, env), TimingOf(NewRow(f, env)), env);
    }
  }

  lemma EditedHoldsSlot(r: Campaign, e: EditForm, users: set<UserId>, env: Env)
    requires RowShape(r) && r.status.Active? && HoldsSlot(env.zone, r) && EditRow(r, e, users, env).Success?
    ensures RowShape(EditRow(r, e, users, env).value) && HoldsSlot(env.zone, EditRow(r, e, users, env).value)
  {
    var q := EditRow(r, e, users, env).value;
    EditedRowExactly(r, e, users, env);
    hide NextRun, SlotUtc, EditRow;
    if AsksForSchedule(e) {
      FollowingHoldsSlot(q, TimingOf(q), env);
    } else if q.nextRunAt.Some? {
      assert q.nextRunAt == r.nextRunAt && TimingOf(q) == TimingOf(r);
    }
  }

  lemma SameScheduleHoldsSlot(z: Zone, r: Campaign, q: Campaign)
    requires RowShape(r) && RowShape(q) && HoldsSlot(z, r)
    requires q == r.(status := q.status, completedAt := q.completedAt)
    ensures HoldsSlot(z, q)
  {
    hide SlotUtc;
    if q.nextRunAt.Some? {
      assert TimingOf(q) == TimingOf(r);
    }
  }

  lemma SameHoldersHoldSlots(z: Zone, s: Store, t: Store)
    requires WellFormed(s) && WellFormed(t) && HoldSlots(z, s) && SameHolders(s.campaigns, t.campaigns)
    ensures HoldSlots(z, t)
  {
    hide RowShape, PeopleExist;
    forall i | 0 <= i < |t.campaigns|
      ensures HoldsSlot(z, t.campaigns[i])
    {
      if i < |s.campaigns| {
        SameScheduleHoldsSlot(z, s.campaigns[i], t.campaigns[i]);
      }
    }
  }

  /** Serving one holder: it hands its schedule over, or holds the following slot; so does the row added. */
  lemma ServingHoldsSlots(s: Store, h: CampaignId, env: Env)
    requires WellFormed(s) && h < |s.campaigns| && Due(s.campaigns[h], env.now) && HoldSlots(env.zone, s)
    ensures var x := StartNext(s, h, env); !x.Crashed? ==> HoldSlots(env.zone, x.s)
  {
    var x := StartNext(s, h, env);
    StartNextEffect(s, h, env);
    hide StartNext, StartRaises, HoldsSlot, RowShape, PeopleExist;
    if !x.Crashed? {
      var row := s.campaigns[h];
      forall i | 0 <= i < |x.s.campaigns|
        ensures HoldsSlot(env.zone, x.s.campaigns[i])
      {
        if i < |s.campaigns| && i != h {
          assert x.s.campaigns[i] == s.campaigns[i];
        } else {
          ServedRowHoldsSlot(row, x.s.campaigns[i], env);
        }
      }
    }
  }

  lemma ServedRowHoldsSlot(r: Campaign, q: Campaign, env: Env)
    requires RowShape(r) && RowShape(q) && r.scheduleDay.Some?
    requires q.nextRunAt.None? || q.nextRunAt == Some(Following(r, env))
    requires q.scheduleDay == r.scheduleDay && q.scheduleTime == r.scheduleTime && q.scheduleEvery == r.scheduleEvery
    ensures HoldsSlot(env.zone, q)
  {
    if q.nextRunAt.Some? {
      FollowingHoldsSlot(q, TimingOf(r), env);
    } else {
      hide SlotUtc;
    }
  }

  lemma {:induction false} ServingAllHoldsSlots(s: Store, ids: seq<CampaignId>, env: Env)
    requires WellFormed(s) && Distinct(ids) && AllDue(s, ids, env.now) && HoldSlots(env.zone, s)
    ensures HoldSlots(env.zone, StartAll(s, ids, env).s)
    decreases |ids|
  {
    hide RowShape, PeopleExist, StartNext, HoldsSlot, Following;
    if ids != [] && !StartNext(s, ids[0], env).Crashed? {
      ServingHoldsSlots(s, ids[0], env);
      StartNextLeavesOthers(s, ids[0], env);
      var s1 := StartNext(s, ids[0], env).s;
      assert AllDue(s1, ids[1..], env.now);
      hide HoldSlots, AllDue;
      ServingAllHoldsSlots(s1, ids[1..], env);
    }
  }

  lemma StepHoldsSlots(z: Zone, s: Store, step: Step)
    requires Inv(s) && HoldSlots(z, s) && InZone(z, step)
    ensures HoldSlots(z, Apply(s, step))
  {
    hide RowShape, PeopleExist, Chained, Settled, Live, HoldsSlot, StartAll, SameHolders;
    match step
    case CreateStep(f, env) => CreatingHoldsSlots(s, f, env);
    case UpdateStep(c, e, env) => EditingHoldsSlots(s, c, e, env);
    case ScheduledStep(env) => ServingAllHoldsSlots(s, DueIds(s, env.now), env);
    case _ =>
      OtherStepsKeepHolders(s, step);
      hide Apply, HoldSlots;
      SameHoldersHoldSlots(z, s, Apply(s, step));
  }

  lemma CreatingHoldsSlots(s: Store, f: ReviewerForm, env: Env)
    requires WellFormed(s) && HoldSlots(env.zone, s)
    ensures HoldSlots(env.zone, Create(s, f, env).s)
  {
    NewRowHoldsSlot(f, env);
    hide RowShape, PeopleExist, HoldsSlot, NewRow, Matching, MissingReference, ValidForm;
  }

  lemma EditingHoldsSlots(s: Store, c: CampaignId, e: EditForm, env: Env)
    requires WellFormed(s) && HoldSlots(env.zone, s)
    ensures HoldSlots(env.zone, Update(s, c, e, env).s)
  {
    hide RowShape, PeopleExist, HoldsSlot, EditRow;
    if Update(s, c, e, env).result.Success? {
      EditedHoldsSlot(s.campaigns[c], e, s.users.Keys, env);
    }
  }

  /** Over every run in one time zone each holder runs next at a slot of its own schedule, whatever was edited, served
      or skipped on the way. */
  lemma {:induction false} HeldRunsAreSlots(z: Zone, s: Store, steps: seq<Step>)
    requires Inv(s) && HoldSlots(z, s) && forall i :: 0 <= i < |steps| ==> InZone(z, steps[i])
    ensures HoldSlots(z, Run(s, steps))
  {
    hide RowShape, PeopleExist, Chained, Settled, Live, HoldSlots, Apply, InZone, Evolves;
    if steps != [] {
      var n := |steps| - 1;
      HeldRunsAreSlots(z, s, steps[..n]);
      RunKeepsInv(s, steps[..n]);
      StepHoldsSlots(z, Run(s, steps[..n]), steps[n]);
    }
  }

  /** The steps a schedule may have are short enough: from no reading of the clock does a stored schedule run after the
      last date there is. */
  lemma StoredSchedulesStayInTheCalendar(r: Campaign, env: Env)
    requires RowShape(r) && r.scheduleDay.Some?
    ensures Following(r, env) <= LAST
  {
    StaysInTheCalendar(env.zone, TimingOf(r), env.now, 0);
  }

  // ----- serving a slot late

  /** When the schedule served runs next: on the campaign started, or on the holder when none was. */
  function RunsNext(s: Store, x: Start, h: CampaignId): Option<int>
    requires !x.Crashed? && h < |s.campaigns| <= |x.s.campaigns|
    requires x.Started? ==> |s.campaigns| < |x.s.campaigns|
  {
    if x.Started? then x.s.campaigns[|s.campaigns|].nextRunAt else x.s.campaigns[h].nextRunAt
  }

  /** Serving a slot of month m, at any time from then on. The schedule stays on the months m, m + every, m + 2 every,
      ... exactly when the month of serving, in local time, is a whole number of steps away from m; a monthly schedule
      always does. */
  lemma ServingKeepsCycleExactly(s: Store, h: CampaignId, env: Env, m: nat)
    requires WellFormed(s) && h < |s.campaigns| && Due(s.campaigns[h], env.now) && !Blocked(s.campaigns[h], env.now)
    requires s.campaigns[h].nextRunAt == Some(SlotUtc(env.zone, TimingOf(s.campaigns[h]), m))
    ensures var x := StartNext(s, h, env); var g := TimingOf(s.campaigns[h]);
            && !x.Crashed? && |s.campaigns| <= |x.s.campaigns| && (x.Started? ==> |s.campaigns| < |x.s.campaigns|)
            && var next := RunsNext(s, x, h);
               && next.Some? && env.now < next.value
               && ((exists k: nat :: next.value == SlotUtc(env.zone, g, Stepped(m, g.every, k)))
                   <==> (MonthOf(env.zone.ToLocal(env.now)) - m) % g.every == 0)
  {
    StartNextEffect(s, h, env);
    hide RowShape, PeopleExist, StartNext, StartRaises, SlotUtc, MonthOf;
    var g := TimingOf(s.campaigns[h]);
    LateRunKeepsCycleExactly(env.zone, g, env.now, m);
    assert RunsNext(s, StartNext(s, h, env), h) == Some(NextRun(env.zone, g, env.now));
  }
}
