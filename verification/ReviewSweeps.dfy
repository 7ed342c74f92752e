/** What the worker's two sweeps achieve. */
module ReviewSweeps {
  import opened Wrappers
  import opened Schedule
  import opened ReviewRows
  import opened ReviewModel
  import opened ReviewInvariant
  import opened ReviewRuns
  import opened ReviewSnapshot

  // ----- closing what is overdue

  /** The next cycle of r, started at `now`: same scope, reviewers and rules, open, due one period later. */
  predicate IsNextCycle(r: Campaign, q: Campaign, now: int) {
    && q.scope == r.scope && q.reviewer == r.reviewer && q.fallback == r.fallback && q.unlockHours == r.unlockHours
    && q.onNoResponse == r.onNoResponse && q.frequencyDays == r.frequencyDays && r.frequencyDays.Some?
    && q.status.Active? && q.createdAt == now && q.completedAt.None?
    && q.dueAt == now + r.frequencyDays.value * DAY && q.scheduleDay.None?
  }

  /** Completing one open campaign: its row is closed, no other row changes, and at most one row is added, which is
      open, not yet due, and the child of no other campaign. */
  predicate ClosedOne(s: Store, t: Store, c: CampaignId, now: int)
    requires c < |s.campaigns|
  {
    && t.users == s.users && t.resources == s.resources
    && |s.campaigns| <= |t.campaigns| <= |s.campaigns| + 1
    && t.campaigns[c] == s.campaigns[c].(status := Completed, completedAt := Some(now))
    && (forall i :: 0 <= i < |s.campaigns| && i != c ==> t.campaigns[i] == s.campaigns[i])
    && (|s.campaigns| < |t.campaigns| ==>
          var q := t.campaigns[|s.campaigns|];
          && q.status.Active? && now < q.dueAt && q.nextRunAt.None?
          && (q.parent.None? || q.parent == Some(c))
          && IsNextCycle(s.campaigns[c], q, now))
  }

  /** Whether completing c leaves it with a child. */
  predicate HasChild(s: Store, c: CampaignId) { !Childless(s, c) }

  /** The next cycle of a campaign is stored: the campaign repeats, the due date can be expressed, and the resources of
      the scope exist. */
  predicate Repeats(s: Store, row: Campaign, now: int)
    requires RowShape(row)
  {
    row.frequencyDays.Some? && !RepeatsPastCalendar(row, now) && ResourcesExist(s, row.scope)
  }

  /** A row for the next cycle is stored exactly when c repeats. It becomes c's child exactly when its snapshot can be
      taken too, and then reviews exactly the access in scope as t has it; otherwise it is stranded, open and empty, as
      nobody's child. Nothing else gets an item. */
  predicate NextCycleExactly(s: Store, t: Store, row: Campaign, c: CampaignId, env: Env)
    requires RowShape(row)
  {
    var tried := Repeats(s, row, env.now);
    && (|t.campaigns| == |s.campaigns| + 1 <==> tried)
    && (HasChild(t, c) <==> tried && !CannotTell(t, row.scope, env))
    && (HasChild(t, c) ==>
          && |s.items| <= |t.items| && (forall k :: |s.items| <= k < |t.items| ==> t.items[k].campaign == |s.campaigns|)
          && ReviewsExactly(t.items, |s.campaigns|, t, row.scope, env))
    && (!HasChild(t, c) ==> |t.items| == |s.items|)
    && (|s.campaigns| < |t.campaigns| && !HasChild(t, c) ==> t.campaigns[|s.campaigns|].parent.None?)
  }

  lemma SpawnEffect(s: Store, c: CampaignId, env: Env)
    requires WellFormed(s) && c < |s.campaigns| && s.campaigns[c].workflow.None? && Childless(s, c)
    ensures var t := Spawn(s, c, env); var row := s.campaigns[c];
            && t.users == s.users && t.resources == s.resources && t.assignments == s.assignments && s.items <= t.items
            && |s.campaigns| <= |t.campaigns| <= |s.campaigns| + 1
            && (forall i :: 0 <= i < |s.campaigns| ==> t.campaigns[i] == s.campaigns[i])
            && (|s.campaigns| < |t.campaigns| ==>
                  var q := t.campaigns[|s.campaigns|];
                  && IsNextCycle(row, q, env.now) && q.status.Active? && env.now < q.dueAt && q.nextRunAt.None?
                  && (q.parent.None? || q.parent == Some(c)))
            && NextCycleExactly(s, t, row, c, env)
  {
    var row := s.campaigns[c];
    if row.frequencyDays.Some? && !RepeatsPastCalendar(row, env.now) {
      RecurrenceFormValidExactly(row, env.now);
      var f := RecurrenceForm(row, env.now);
      OnlyResourcesCanBeMissing(s, row, f);
      MatchingExact(s, row.scope, env);
      if TryCreate(s, f, env).Created? {
        SnapshotIsExact(s, f, env);
        SameAccessSameRoster(TryCreate(s, f, env).s.items, |s.campaigns|, s, Spawn(s, c, env), row.scope, env);
      }
      hide RowShape, PeopleExist, ValidForm, Matching, ResourcesExist, MissingReference, ReviewsExactly, CannotTell;
      var t := Spawn(s, c, env);
      match TryCreate(s, f, env) {
        case Refused(_) =>
        case Stranded(s1) =>
          assert s1.campaigns == s.campaigns + [NewRow(f, env)];
          assert Childless(t, c);
        case Created(s1) =>
          assert s1.campaigns == s.campaigns + [NewRow(f, env)];
          assert t.campaigns[|s.campaigns|].parent == Some(c);
      }
    }
  }

  /** Completing an open campaign closes its row, and starts or strands its next cycle; whether the snapshot can be
      taken is decided by the assignments as the closing leaves them. */
  lemma CompleteEffect(s: Store, c: CampaignId, env: Env)
    requires Inv(s) && c < |s.campaigns| && s.campaigns[c].status.Active?
    ensures var t := Complete(s, c, env).s;
            ClosedOne(s, t, c, env.now) && NextCycleExactly(s, t, s.campaigns[c], c, env)
  {
    hide RowShape, PeopleExist, Complete, Finish, Spawn, Chained, Settled, Live;
    hide IsNextCycle, Repeats, CannotTell, ReviewsExactly;
    var s2 := Finished(s, c, env);
    SpawnEffect(s2, c, env);
    NextCycleIgnoresStatus(s, s2, c, env.now);
  }

  /** What completing a campaign answers: an error, without any change, for one that does not exist or is closed; and an
      error although the campaign is closed, exactly when its next cycle would be due after the last date. */
  lemma CompleteAnswersExactly(s: Store, c: CampaignId, env: Env)
    requires WellFormed(s)
    ensures var a := Complete(s, c, env);
            if c >= |s.campaigns| then a == Answer(s, Failure(CampaignNotFound))
            else if s.campaigns[c].status.Completed? then a == Answer(s, Failure(AlreadyProcessed))
            else
              var days := s.campaigns[c].frequencyDays;
              && (a.result.Failure? <==> days.Some? && LAST < env.now + days.value * DAY)
              && (a.result.Failure? ==> a.result.error == NextCyclePastCalendar)
  {
    hide RowShape, PeopleExist, CloseCampaign;
  }

  /** Where completing an open campaign stands before the next cycle is started. */
  lemma Finished(s: Store, c: CampaignId, env: Env) returns (s2: Store)
    requires Inv(s) && c < |s.campaigns| && s.campaigns[c].status.Active?
    ensures WellFormed(s2) && Childless(s2, c) && |s2.campaigns| == |s.campaigns| && |s2.items| == |s.items|
    ensures Complete(s, c, env).s == Spawn(s2, c, env)
    ensures s2.campaigns == s.campaigns[c := s.campaigns[c].(status := Completed, completedAt := Some(env.now))]
    ensures s2.users == s.users && s2.resources == s.resources && s.campaigns[c].workflow.None?
  {
    hide RowShape, PeopleExist, Spawn, Settled, Live;
    var ids := PendingBelow(s.items, c, |s.items|);
    PendingBelowExact(s.items, c, |s.items|);
    CloseItemsDecides(s, c, ids, s.campaigns[c].onNoResponse, env);
    s2 := Finish(CloseItems(s, ids, s.campaigns[c].onNoResponse, env), c, env);
  }

  lemma NextCycleIgnoresStatus(s: Store, t: Store, c: CampaignId, now: int)
    requires c < |s.campaigns| == |t.campaigns| && t.resources == s.resources
    requires RowShape(s.campaigns[c]) && RowShape(t.campaigns[c])
    requires s.campaigns[c] == t.campaigns[c].(status := Active, completedAt := s.campaigns[c].completedAt)
    ensures forall q :: IsNextCycle(t.campaigns[c], q, now) <==> IsNextCycle(s.campaigns[c], q, now)
    ensures Repeats(t, t.campaigns[c], now) <==> Repeats(s, s.campaigns[c], now)
  {
  }

  /** What deciding an item does beyond that item. The last decision closes its campaign, and starts or strands the next
      cycle just as completing does; any other leaves all rows as they are and adds no item. */
  lemma DecideEffect(s: Store, k: ItemId, verdict: Verdict, actor: Actor, env: Env)
    requires Inv(s) && Recorded(Decide(s, k, verdict, actor, env))
    ensures var t := Decide(s, k, verdict, actor, env).s;
            && k < |s.items| && s.items[k].campaign < |s.campaigns|
            && var c := s.items[k].campaign;
               if exists l :: 0 <= l < |s.items| && l != k && s.items[l].campaign == c && s.items[l].decision.Pending?
               then t.campaigns == s.campaigns && |t.items| == |s.items|
               else ClosedOne(s, t, c, env.now) && NextCycleExactly(s, t, s.campaigns[c], c, env)
  {
    LastDecisionClosesExactly(s, k, verdict, actor, env);
    DecisionIsRecordedExactly(s, k, verdict, actor, env);
    hide RowShape, PeopleExist, Chained, Settled, Live, Decide, ClosedOne, NextCycleExactly, Evolves;
    DecidingCloses(s, k, verdict, actor, env);
  }

  lemma DecidingCloses(s: Store, k: ItemId, verdict: Verdict, actor: Actor, env: Env)
    requires Inv(s) && k < |s.items| && Recorded(Decide(s, k, verdict, actor, env))
    ensures var t := Decide(s, k, verdict, actor, env).s; var c := s.items[k].campaign;
            && c < |s.campaigns| && c < |t.campaigns| && s.campaigns[c].status.Active?
            && if t.campaigns[c].status.Completed?
               then ClosedOne(s, t, c, env.now) && NextCycleExactly(s, t, s.campaigns[c], c, env)
               else t.campaigns == s.campaigns && |t.items| == |s.items|
  {
    hide RowShape, PeopleExist, Chained, Settled, Live, CloseWhenDone, Closes, Authorize, ClosedOne, NextCycleExactly;
    hide Evolves, Childless;
    LastDecisionClosesExactly(s, k, verdict, actor, env);
    var c := s.items[k].campaign;
    var s1 := if verdict.TakeAway? then Revoke(s, s.items[k].assignment, env).0 else s;
    var s2 := RecordDecision(s1, k, verdict, Authorize(s.campaigns[c], actor, env.now).value, env);
    OpenIsChildless(s, c);
    SameRowsSameChildren(s, s2, c);
    ClosedWhenDone(s2, c, env);
    SameRowsSameEffect(s, s2, c, env);
  }

  /** The tail of `decide_item` on its own. */
  lemma ClosedWhenDone(s: Store, c: CampaignId, env: Env)
    requires WellFormed(s) && ReviewerRouted(s) && c < |s.campaigns| && s.campaigns[c].status.Active? && Childless(s, c)
    ensures var t := CloseWhenDone(s, c, env);
            && c < |t.campaigns|
            && if t.campaigns[c].status.Completed?
               then ClosedOne(s, t, c, env.now) && NextCycleExactly(s, t, s.campaigns[c], c, env)
               else t == s
  {
    hide RowShape, PeopleExist, Spawn, Closes, IsNextCycle, Repeats, CannotTell, ReviewsExactly;
    if Closes(s, c) {
      var s2 := Finish(s, c, env);
      SpawnEffect(s2, c, env);
      NextCycleIgnoresStatus(s, s2, c, env.now);
    }
  }

  lemma SameRowsSameChildren(s: Store, s2: Store, c: CampaignId)
    requires s2.campaigns == s.campaigns && Childless(s, c)
    ensures Childless(s2, c)
  {
  }

  lemma SameRowsSameEffect(s: Store, s2: Store, c: CampaignId, env: Env)
    requires c < |s.campaigns| && RowShape(s.campaigns[c])
    requires s2.campaigns == s.campaigns && s2.users == s.users && s2.resources == s.resources
    requires |s2.items| == |s.items|
    ensures forall t :: ClosedOne(s2, t, c, env.now) ==> ClosedOne(s, t, c, env.now)
    ensures forall t :: NextCycleExactly(s2, t, s.campaigns[c], c, env)
                        ==> NextCycleExactly(s, t, s.campaigns[c], c, env)
  {
    SameResources(s, s2, s.campaigns[c], env.now);
    hide IsNextCycle, Repeats, CannotTell, ReviewsExactly, RowShape;
  }

  /** Completing a campaign leaves the items of every other campaign alone. */
  lemma CompleteLeavesOtherItems(s: Store, c: CampaignId, d: CampaignId, env: Env)
    requires Inv(s) && c < |s.campaigns| && s.campaigns[c].status.Active? && d < |s.campaigns| && d != c
    ensures SameItemsOf(s.items, Complete(s, c, env).s.items, d)
  {
    hide RowShape, PeopleExist, Chained, Settled, Live, Complete, PendingBelow, CloseItems, IsNextCycle;
    hide NextCycleExactly;
    ForcedClosing(s, c, env);
    CompleteEffect(s, c, env);
    NewItemsOfNextCycle(s, Complete(s, c, env).s, s.campaigns[c], c, env);
    hide Core, InTables, ClosedOne, WellFormed;
  }

  lemma NewItemsOfNextCycle(s: Store, t: Store, row: Campaign, c: CampaignId, env: Env)
    requires RowShape(row) && NextCycleExactly(s, t, row, c, env)
    ensures |s.items| <= |t.items| && forall k :: |s.items| <= k < |t.items| ==> t.items[k].campaign == |s.campaigns|
  {
    hide RowShape, HasChild, Repeats, CannotTell, ReviewsExactly;
  }

  predicate AllOpen(s: Store, ids: seq<CampaignId>) {
    Distinct(ids) && forall j :: 0 <= j < |ids| ==> ids[j] < |s.campaigns| && s.campaigns[ids[j]].status.Active?
  }

  /** Closing several campaigns: exactly those rows are closed, and every added row is open, not yet due, and the
      next cycle of its parent. */
  predicate ClosedMany(s: Store, t: Store, ids: seq<CampaignId>, now: int) {
    && t.users == s.users && t.resources == s.resources && |s.campaigns| <= |t.campaigns|
    && (forall i :: 0 <= i < |s.campaigns| ==>
          t.campaigns[i] == if i in ids then s.campaigns[i].(status := Completed, completedAt := Some(now))
                            else s.campaigns[i])
    && (forall i :: |s.campaigns| <= i < |t.campaigns| ==>
          && t.campaigns[i].status.Active? && now < t.campaigns[i].dueAt && t.campaigns[i].nextRunAt.None?
          && (t.campaigns[i].parent.Some? ==>
                && t.campaigns[i].parent.value in ids && t.campaigns[i].parent.value < |s.campaigns|
                && IsNextCycle(s.campaigns[t.campaigns[i].parent.value], t.campaigns[i], now)))
  }

  lemma {:induction false} CloseAllEffect(s: Store, ids: seq<CampaignId>, env: Env)
    requires Inv(s) && AllOpen(s, ids)
    ensures ClosedMany(s, CloseAll(s, ids, env), ids, env.now)
    decreases |ids|
  {
    hide RowShape, PeopleExist, Chained, Settled, Live, Complete, IsNextCycle;
    if ids != [] {
      var s1 := Complete(s, ids[0], env).s;
      CompleteEffect(s, ids[0], env);
      CompleteKeepsInv(s, ids[0], env);
      assert AllOpen(s1, ids[1..]);
      CloseAllEffect(s1, ids[1..], env);
      assert forall i :: i in ids <==> i == ids[0] || i in ids[1..];
      ClosedManyComposes(s, s1, CloseAll(s1, ids[1..], env), ids, env.now);
    }
  }

  lemma ClosedManyComposes(s: Store, s1: Store, t: Store, ids: seq<CampaignId>, now: int)
    requires ids != [] && AllOpen(s, ids)
    requires ClosedOne(s, s1, ids[0], now) && ClosedMany(s1, t, ids[1..], now)
    requires forall i :: i in ids <==> i == ids[0] || i in ids[1..]
    ensures ClosedMany(s, t, ids, now)
  {
    hide IsNextCycle;
    assert forall i :: i in ids[1..] ==> i < |s.campaigns| && i != ids[0];
    forall i | 0 <= i < |s.campaigns|
      ensures t.campaigns[i] == if i in ids then s.campaigns[i].(status := Completed, completedAt := Some(now))
                                else s.campaigns[i]
    {
      if i in ids && i != ids[0] {
        assert i in ids[1..] && s1.campaigns[i] == s.campaigns[i];
      }
    }
    forall i | |s.campaigns| <= i < |t.campaigns|
      ensures && t.campaigns[i].status.Active? && now < t.campaigns[i].dueAt && t.campaigns[i].nextRunAt.None?
              && (t.campaigns[i].parent.Some? ==>
                    && t.campaigns[i].parent.value in ids && t.campaigns[i].parent.value < |s.campaigns|
                    && IsNextCycle(s.campaigns[t.campaigns[i].parent.value], t.campaigns[i], now))
    {
      if i < |s1.campaigns| {
        assert i == |s.campaigns| && i !in ids[1..] && t.campaigns[i] == s1.campaigns[i];
      } else if t.campaigns[i].parent.Some? {
        var p := t.campaigns[i].parent.value;
        assert p in ids[1..] && s1.campaigns[p] == s.campaigns[p];
      }
    }
  }

  /** Closing other campaigns neither gives c a child nor takes one away. */
  lemma {:induction false} CloseAllKeepsChildren(s: Store, ids: seq<CampaignId>, c: CampaignId, env: Env)
    requires Inv(s) && AllOpen(s, ids) && c < |s.campaigns| && c !in ids
    ensures HasChild(CloseAll(s, ids, env), c) <==> HasChild(s, c)
    decreases |ids|
  {
    hide RowShape, PeopleExist, Chained, Settled, Live, Complete, IsNextCycle, Repeats, CannotTell;
    if ids != [] {
      var s1 := Complete(s, ids[0], env).s;
      CompleteEffect(s, ids[0], env);
      CompleteKeepsInv(s, ids[0], env);
      assert AllOpen(s1, ids[1..]);
      CloseAllKeepsChildren(s1, ids[1..], c, env);
      OthersKeepTheirChildren(s, s1, ids[0], env.now);
    }
  }

  /** Closing other campaigns leaves the items of d alone. */
  lemma {:induction false} CloseAllLeavesOtherItems(s: Store, ids: seq<CampaignId>, d: CampaignId, env: Env)
    requires Inv(s) && AllOpen(s, ids) && d < |s.campaigns| && d !in ids
    ensures SameItemsOf(s.items, CloseAll(s, ids, env).items, d)
    decreases |ids|
  {
    hide RowShape, PeopleExist, Chained, Settled, Live, Complete, IsNextCycle, NextCycleExactly;
    if ids != [] {
      var s1 := Complete(s, ids[0], env).s;
      CompleteEffect(s, ids[0], env);
      CompleteKeepsInv(s, ids[0], env);
      CompleteLeavesOtherItems(s, ids[0], d, env);
      assert AllOpen(s1, ids[1..]);
      CloseAllLeavesOtherItems(s1, ids[1..], d, env);
    }
  }

  lemma {:induction false} CloseAllInTwo(s: Store, ids: seq<CampaignId>, more: seq<CampaignId>, env: Env)
    requires WellFormed(s)
    ensures CloseAll(s, ids + more, env) == CloseAll(CloseAll(s, ids, env), more, env)
    decreases |ids|
  {
    hide RowShape, PeopleExist, Complete;
    if ids == [] {
      assert [] + more == more;
    } else {
      assert (ids + more)[1..] == ids[1..] + more && (ids + more)[0] == ids[0];
      CloseAllInTwo(Complete(s, ids[0], env).s, ids[1..], more, env);
    }
  }

  lemma OthersKeepTheirChildren(s: Store, t: Store, c: CampaignId, now: int)
    requires c < |s.campaigns| && ClosedOne(s, t, c, now)
    ensures forall d: CampaignId :: d < |s.campaigns| && d != c ==> (HasChild(t, d) <==> HasChild(s, d))
  {
    hide IsNextCycle;
    assert t.campaigns[c].parent == s.campaigns[c].parent;
    assert forall i :: 0 <= i < |s.campaigns| ==> t.campaigns[i].parent == s.campaigns[i].parent;
  }

  /** How many of some open campaigns the sweep gets to close: up to the first whose next cycle cannot be dated. */
  function Reach(rows: seq<Campaign>, ids: seq<CampaignId>, now: int): (n: nat)
    requires forall j :: 0 <= j < |ids| ==> ids[j] < |rows|
    ensures n <= |ids|
  {
    if ids == [] then 0
    else if RepeatsPastCalendar(rows[ids[0]], now) then 1
    else 1 + Reach(rows, ids[1..], now)
  }

  /** One of the first j campaigns has a next cycle that cannot be dated. */
  predicate PastUpTo(rows: seq<Campaign>, ids: seq<CampaignId>, j: int, now: int) {
    exists i :: 0 <= i < j && i < |ids| && ids[i] < |rows| && RepeatsPastCalendar(rows[ids[i]], now)
  }

  lemma PastUpToTail(rows: seq<Campaign>, later: seq<Campaign>, ids: seq<CampaignId>, j: int, now: int)
    requires ids != [] && forall j :: 0 <= j < |ids| ==> ids[j] < |rows|
    requires forall j :: 0 < j < |ids| ==> ids[j] < |later| && later[ids[j]] == rows[ids[j]]
    requires !RepeatsPastCalendar(rows[ids[0]], now)
    ensures PastUpTo(later, ids[1..], j, now) <==> PastUpTo(rows, ids, j + 1, now)
  {
    hide RepeatsPastCalendar;
    var tail := ids[1..];
    if PastUpTo(rows, ids, j + 1, now) {
      var i :| 0 <= i < j + 1 && i < |ids| && RepeatsPastCalendar(rows[ids[i]], now);
      assert tail[i - 1] == ids[i];
    }
    if PastUpTo(later, tail, j, now) {
      var i :| 0 <= i < j && i < |tail| && RepeatsPastCalendar(later[tail[i]], now);
      assert ids[i + 1] == tail[i];
    }
  }

  lemma {:induction false} ReachExactly(rows: seq<Campaign>, ids: seq<CampaignId>, j: nat, now: int)
    requires j < |ids| && forall j :: 0 <= j < |ids| ==> ids[j] < |rows|
    ensures j < Reach(rows, ids, now) <==> !PastUpTo(rows, ids, j, now)
  {
    if j > 0 {
      if RepeatsPastCalendar(rows[ids[0]], now) {
        hide RepeatsPastCalendar;
      } else {
        hide RepeatsPastCalendar;
        PastUpToTail(rows, rows, ids, j - 1, now);
        ReachExactly(rows, ids[1..], j - 1, now);
      }
    }
  }

  lemma {:induction false} ReachDependsOnRows(rows: seq<Campaign>, later: seq<Campaign>, ids: seq<CampaignId>, now: int)
    requires forall j :: 0 <= j < |ids| ==> ids[j] < |rows| && ids[j] < |later| && later[ids[j]] == rows[ids[j]]
    ensures Reach(later, ids, now) == Reach(rows, ids, now)
  {
    hide RepeatsPastCalendar;
    if ids != [] {
      ReachDependsOnRows(rows, later, ids[1..], now);
    }
  }

  /** The loop closes the campaigns within reach, and ends early exactly when there is one whose next cycle cannot be
      dated. */
  lemma {:induction false} CloseUntilReaches(s: Store, ids: seq<CampaignId>, env: Env)
    requires Inv(s) && AllOpen(s, ids)
    ensures var r := CloseUntil(s, ids, env); var n := Reach(s.campaigns, ids, env.now);
            && r.s == CloseAll(s, ids[..n], env)
            && (r.crashed <==> PastUpTo(s.campaigns, ids, |ids|, env.now))
            && r.closed == n - (if r.crashed then 1 else 0)
    decreases |ids|
  {
    hide RowShape, PeopleExist, Chained, Settled, Live, Complete, RepeatsPastCalendar;
    if ids != [] {
      FirstClosed(s, ids, env);
      var a := Complete(s, ids[0], env);
      var tail := ids[1..];
      if RepeatsPastCalendar(s.campaigns[ids[0]], env.now) {
        assert ids[..1] == [ids[0]] && [ids[0]][1..] == [];
        assert CloseAll(a.s, [], env) == a.s;
      } else {
        ReachDependsOnRows(s.campaigns, a.s.campaigns, tail, env.now);
        CloseUntilReaches(a.s, tail, env);
        PastUpToTail(s.campaigns, a.s.campaigns, ids, |tail|, env.now);
        hide PastUpTo, AllOpen;
        var n := Reach(s.campaigns, ids, env.now);
        assert ids[..n][0] == ids[0] && ids[..n][1..] == tail[..n - 1];
      }
    }
  }

  /** Closing the first of some open campaigns: what it answers, and that the others stay as they are. */
  lemma FirstClosed(s: Store, ids: seq<CampaignId>, env: Env)
    requires Inv(s) && ids != [] && AllOpen(s, ids)
    ensures var a := Complete(s, ids[0], env);
            && Inv(a.s) && AllOpen(a.s, ids[1..])
            && a.result == AfterClosing(s.campaigns[ids[0]], env.now)
            && (forall j :: 0 < j < |ids| ==>
                  ids[j] < |a.s.campaigns| && a.s.campaigns[ids[j]] == s.campaigns[ids[j]])
  {
    hide RowShape, PeopleExist, Chained, Settled, Live, CloseCampaign, IsNextCycle, NextCycleExactly, AfterClosing;
    CompleteEffect(s, ids[0], env);
    CompleteKeepsInv(s, ids[0], env);
    assert forall j :: 0 <= j < |ids| - 1 ==> ids[1..][j] == ids[j + 1];
  }

  /** An overdue campaign whose next cycle cannot be dated ends the sweep once it is closed. */
  predicate EndsSweep(r: Campaign, now: int) { Overdue(r, now) && RepeatsPastCalendar(r, now) }

  /** The sweep ends before it gets to campaign c. */
  predicate HeldUp(rows: seq<Campaign>, c: nat, now: int) {
    exists b :: 0 <= b < c && b < |rows| && EndsSweep(rows[b], now)
  }

  /** The overdue campaigns the sweep closes. */
  function ClosedIds(s: Store, now: int): (ids: seq<CampaignId>)
    ensures AllOpen(s, ids)
  {
    OverdueIds(s, now)[..Reach(s.campaigns, OverdueIds(s, now), now)]
  }

  /** Looking through the overdue campaigns up to one of them is looking through the table up to its row. */
  lemma HeldUpByIds(s: Store, j: nat, now: int)
    requires j <= |OverdueIds(s, now)|
    ensures var ids := OverdueIds(s, now);
            PastUpTo(s.campaigns, ids, j, now)
            <==> HeldUp(s.campaigns, if j < |ids| then ids[j] else |s.campaigns|, now)
  {
    var ids := OverdueIds(s, now);
    assert forall b :: 0 <= b < |s.campaigns| && EndsSweep(s.campaigns[b], now) ==> b in ids;
    hide RepeatsPastCalendar, HeldUp, PastUpTo;
    HeldUpByOrder(s.campaigns, ids, j, now);
  }

  lemma HeldUpByOrder(rows: seq<Campaign>, ids: seq<CampaignId>, j: nat, now: int)
    requires j <= |ids| && forall i :: 0 <= i < |ids| ==> ids[i] < |rows| && Overdue(rows[ids[i]], now)
    requires forall i, k :: 0 <= i < k < |ids| ==> ids[i] < ids[k]
    requires forall b :: 0 <= b < |rows| && EndsSweep(rows[b], now) ==> b in ids
    ensures PastUpTo(rows, ids, j, now) <==> HeldUp(rows, if j < |ids| then ids[j] else |rows|, now)
  {
    var c := if j < |ids| then ids[j] else |rows|;
    if HeldUp(rows, c, now) {
      var b: nat :| b < c && b < |rows| && EndsSweep(rows[b], now);
      var i :| 0 <= i < |ids| && ids[i] == b;
      assert i < j;
    }
    hide RepeatsPastCalendar;
    if PastUpTo(rows, ids, j, now) {
      var i :| 0 <= i < j && i < |ids| && ids[i] < |rows| && RepeatsPastCalendar(rows[ids[i]], now);
      assert EndsSweep(rows[ids[i]], now);
    }
  }

  lemma ClosedIdsExactly(s: Store, now: int, c: CampaignId)
    ensures c in ClosedIds(s, now) <==>
              c < |s.campaigns| && Overdue(s.campaigns[c], now) && !HeldUp(s.campaigns, c, now)
  {
    var ids := OverdueIds(s, now);
    assert c in ids <==> c < |s.campaigns| && Overdue(s.campaigns[c], now);
    hide HeldUp, PastUpTo, Reach, Overdue;
    var n := Reach(s.campaigns, ids, now);
    if c in ids {
      var j :| 0 <= j < |ids| && ids[j] == c;
      HeldUpByIds(s, j, now);
      ReachExactly(s.campaigns, ids, j, now);
      if c in ids[..n] {
        var i :| 0 <= i < n && ids[i] == c;
        assert i == j;
      }
    }
  }

  /** The overdue sweep at time t, exactly. It closes the overdue campaigns up to the first whose next cycle cannot be
      dated, which ends it; so those after that one stay overdue, and nothing else is overdue at t when the sweep is
      over, not even what was started during it. */
  lemma OverdueSweepClosesExactly(s: Store, env: Env)
    requires Inv(s)
    ensures var r := SweepOverdue(s, env); var t := r.s;
            && ClosedMany(s, t, ClosedIds(s, env.now), env.now)
            && (r.crashed <==> exists b :: 0 <= b < |s.campaigns| && EndsSweep(s.campaigns[b], env.now))
            && (forall i :: 0 <= i < |t.campaigns| ==>
                  (t.campaigns[i].status.Active? && t.campaigns[i].dueAt <= env.now <==>
                     && i < |s.campaigns| && s.campaigns[i].status.Active? && s.campaigns[i].dueAt <= env.now
                     && HeldUp(s.campaigns, i, env.now)))
            && (forall i :: 0 <= i < |s.campaigns| ==>
                  (t.campaigns[i].status.Completed? <==>
                     || s.campaigns[i].status.Completed?
                     || (s.campaigns[i].dueAt <= env.now && !HeldUp(s.campaigns, i, env.now))))
  {
    hide RowShape, PeopleExist, Chained, Settled, Live, CloseAll, SweepOverdue, ClosedIds, IsNextCycle, HeldUp;
    SweepReaches(s, env);
    ClosedIdsAreOpen(s, env.now);
    CloseAllEffect(s, ClosedIds(s, env.now), env);
    var t := SweepOverdue(s, env).s;
    forall i: nat | i < |s.campaigns|
      ensures i in ClosedIds(s, env.now) <==>
                Overdue(s.campaigns[i], env.now) && !HeldUp(s.campaigns, i, env.now)
    {
      ClosedIdsExactly(s, env.now, i);
    }
  }

  lemma ClosedIdsAreOpen(s: Store, now: int)
    ensures AllOpen(s, ClosedIds(s, now))
  {
  }

  lemma SweepReaches(s: Store, env: Env)
    requires Inv(s)
    ensures SweepOverdue(s, env).s == CloseAll(s, ClosedIds(s, env.now), env)
    ensures SweepOverdue(s, env).crashed <==>
              exists b :: 0 <= b < |s.campaigns| && EndsSweep(s.campaigns[b], env.now)
  {
    hide RowShape, PeopleExist, Chained, Settled, Live, CloseAll, CloseUntil, EndsSweep, PastUpTo, Reach;
    var ids := OverdueIds(s, env.now);
    CloseUntilReaches(s, ids, env);
    HeldUpByIds(s, |ids|, env.now);
  }

  /** Each overdue campaign c gets exactly one child, its next cycle, when the sweep gets to it, it repeats, the due
      date can be expressed, the resources of its scope exist and its snapshot can be taken at its turn, and none
      otherwise. Here c is the j-th overdue campaign. */
  lemma SweepStartsOneChildEach(s: Store, env: Env, c: CampaignId, j: nat)
    requires Inv(s) && c < |s.campaigns| && j < |OverdueIds(s, env.now)| && OverdueIds(s, env.now)[j] == c
    ensures var t := SweepOverdue(s, env).s;
            var atItsTurn := CloseAll(s, OverdueIds(s, env.now)[..j + 1], env);
            HasChild(t, c) <==> && !HeldUp(s.campaigns, c, env.now) && Repeats(s, s.campaigns[c], env.now)
                                && !CannotTell(atItsTurn, s.campaigns[c].scope, env)
    ensures ChildrenAreNextCycles(s, SweepOverdue(s, env).s, c, env.now)
  {
    hide RowShape, PeopleExist, Chained, Settled, Live, CloseAll, SweepOverdue, Repeats, CannotTell, HeldUp, ClosedIds;
    hide ChildrenAreNextCycles, RepeatsPastCalendar;
    var reached := ClosedIds(s, env.now);
    assert Overdue(s.campaigns[c], env.now);
    SweepReaches(s, env);
    ClosedIdsAreOpen(s, env.now);
    ClosedIdsExactly(s, env.now, c);
    OpenIsChildless(s, c);
    ChildrenOfTheSweep(s, reached, env, c);
    if c in reached {
      SameTurn(s, env.now, c, j);
      hide OverdueIds, AllOpen;
      assert reached[..j] + [c] + reached[j + 1..] == reached;
      assert OverdueIds(s, env.now)[..j + 1] == reached[..j] + [c];
      ItsTurn(s, reached[..j], c, reached[j + 1..], env);
    } else {
      CloseAllKeepsChildren(s, reached, c, env);
    }
  }

  lemma ScopeIsValid(s: Store, c: CampaignId)
    requires WellFormed(s) && c < |s.campaigns|
    ensures ValidScope(s.campaigns[c].scope)
  {
  }

  /** A child of c in t reviews exactly what the scope has in an earlier store. */
  predicate ChildReviews(t: Store, c: CampaignId, at: Store, scope: Scope, env: Env) {
    && ValidScope(scope)
    && forall i :: 0 <= i < |t.campaigns| && t.campaigns[i].parent == Some(c) ==>
         ReviewsExactly(t.items, i, at, scope, env)
  }

  /** The child of the j-th overdue campaign reviews exactly the access in its scope as the closings up to its own leave
      it, whatever the closings after it take away. */
  lemma SweepChildReviewsScope(s: Store, env: Env, c: CampaignId, j: nat, atItsTurn: Store)
    requires Inv(s) && c < |s.campaigns| && j < |OverdueIds(s, env.now)| && OverdueIds(s, env.now)[j] == c
    requires atItsTurn == CloseAll(s, OverdueIds(s, env.now)[..j + 1], env)
    ensures ChildReviews(SweepOverdue(s, env).s, c, atItsTurn, s.campaigns[c].scope, env)
  {
    hide RowShape, PeopleExist, Chained, Settled, Live, CloseAll, SweepOverdue, CannotTell, HeldUp, ClosedIds;
    hide ValidScope, ReviewsExactly, Repeats, ChildrenAreNextCycles, OverdueIds;
    ScopeIsValid(s, c);
    SweepStartsOneChildEach(s, env, c, j);
    if HasChild(SweepOverdue(s, env).s, c) {
      var later := ReachedAround(s, env, c, j);
      hide AllOpen, ChildReviews;
      OpenIsChildless(s, c);
      var earlier := OverdueIds(s, env.now)[..j];
      assert earlier + [c] == OverdueIds(s, env.now)[..j + 1];
      ItsTurn(s, earlier, c, later, env);
    }
  }

  /** The campaigns the sweep closes, around the j-th overdue one. */
  lemma ReachedAround(s: Store, env: Env, c: CampaignId, j: nat) returns (later: seq<CampaignId>)
    requires Inv(s) && j < |OverdueIds(s, env.now)| && OverdueIds(s, env.now)[j] == c
    requires c < |s.campaigns| && !HeldUp(s.campaigns, c, env.now)
    ensures var ids := OverdueIds(s, env.now)[..j] + [c] + later;
            AllOpen(s, ids) && SweepOverdue(s, env).s == CloseAll(s, ids, env) && s.campaigns[c].status.Active?
  {
    hide RowShape, PeopleExist, Chained, Settled, Live, CloseAll, SweepOverdue, HeldUp, ClosedIds;
    var reached := ClosedIds(s, env.now);
    assert Overdue(s.campaigns[c], env.now);
    SweepReaches(s, env);
    ClosedIdsAreOpen(s, env.now);
    ClosedIdsExactly(s, env.now, c);
    SameTurn(s, env.now, c, j);
    later := reached[j + 1..];
    assert reached[..j] + [c] + later == reached;
  }

  lemma SameTurn(s: Store, now: int, c: CampaignId, j: nat)
    requires j < |OverdueIds(s, now)| && OverdueIds(s, now)[j] == c && c in ClosedIds(s, now)
    ensures var reached := ClosedIds(s, now);
            j < |reached| && reached[j] == c && reached[..j] == OverdueIds(s, now)[..j]
  {
    hide Reach;
    var reached := ClosedIds(s, now);
    var i :| 0 <= i < |reached| && reached[i] == c;
    assert i == j;
  }

  lemma OpenIsChildless(s: Store, c: CampaignId)
    requires Inv(s) && c < |s.campaigns| && s.campaigns[c].status.Active?
    ensures Childless(s, c)
  {
    hide RowShape, PeopleExist, Settled, Live;
  }

  lemma ChildrenOfTheSweep(s: Store, ids: seq<CampaignId>, env: Env, c: CampaignId)
    requires Inv(s) && c < |s.campaigns| && s.campaigns[c].status.Active? && AllOpen(s, ids)
    ensures ChildrenAreNextCycles(s, CloseAll(s, ids, env), c, env.now)
  {
    hide RowShape, PeopleExist, Settled, Live, CloseAll, IsNextCycle;
    CloseAllEffect(s, ids, env);
    CloseAllKeepsInv(s, ids, env);
    OpenIsChildless(s, c);
  }

  /** What becomes of c when it is closed between others. */
  lemma ItsTurn(s: Store, earlier: seq<CampaignId>, c: CampaignId, later: seq<CampaignId>, env: Env)
    requires Inv(s) && AllOpen(s, earlier + [c] + later) && c < |s.campaigns| && Childless(s, c)
    ensures var t := CloseAll(s, earlier + [c] + later, env); var row := s.campaigns[c];
            && (HasChild(t, c) <==> && Repeats(s, row, env.now)
                                    && !CannotTell(CloseAll(s, earlier + [c], env), row.scope, env))
            && ChildReviews(t, c, CloseAll(s, earlier + [c], env), row.scope, env)
  {
    hide ChildReviews;
    hide RowShape, PeopleExist, Settled, Chained, Live, IsNextCycle, Repeats, CannotTell, CloseAll;
    var ids := earlier + [c] + later;
    assert forall j :: 0 <= j < |earlier| ==> earlier[j] == ids[j];
    assert ids[|earlier|] == c;
    assert forall j :: 0 <= j < |later| ==> later[j] == ids[|earlier| + 1 + j];
    CloseAllInTwo(s, earlier + [c], later, env);
    CloseAllInTwo(s, earlier, [c], env);
    var u := CloseAll(s, earlier, env);
    CloseAllEffect(s, earlier, env);
    CloseAllKeepsInv(s, earlier, env);
    CloseAllKeepsChildren(s, earlier, c, env);
    assert u.campaigns[c] == s.campaigns[c];
    assert AllOpen(u, later);
    hide ClosedMany, AllOpen;
    SameResources(s, u, s.campaigns[c], env.now);
    FirstTurn(u, c, later, env);
  }

  lemma FirstTurn(s: Store, c: CampaignId, later: seq<CampaignId>, env: Env)
    requires Inv(s) && AllOpen(s, later) && c !in later && Childless(s, c)
    requires c < |s.campaigns| && s.campaigns[c].status.Active?
    ensures var v := CloseAll(s, [c], env); var row := s.campaigns[c];
            && (HasChild(CloseAll(v, later, env), c)
                <==> Repeats(s, row, env.now) && !CannotTell(v, row.scope, env))
            && ChildReviews(CloseAll(v, later, env), c, v, row.scope, env)
  {
    hide ChildReviews;
    hide RowShape, PeopleExist, Settled, Chained, Live, IsNextCycle, Repeats, CannotTell, Complete;
    var v := Complete(s, c, env).s;
    CompleteEffect(s, c, env);
    CompleteKeepsInv(s, c, env);
    assert CloseAll(s, [c], env) == v by {
      assert [c][1..] == [];
    }
    hide CloseAll;
    assert AllOpen(v, later);
    CloseAllKeepsChildren(v, later, c, env);
    RosterAfterOthers(s, v, c, later, env);
  }

  lemma RosterAfterOthers(s: Store, v: Store, c: CampaignId, later: seq<CampaignId>, env: Env)
    requires WellFormed(s) && Inv(v) && AllOpen(v, later) && c < |s.campaigns| && c !in later && Childless(s, c)
    requires forall j :: 0 <= j < |later| ==> later[j] < |s.campaigns|
    requires ClosedOne(s, v, c, env.now) && NextCycleExactly(s, v, s.campaigns[c], c, env)
    ensures ChildReviews(CloseAll(v, later, env), c, v, s.campaigns[c].scope, env)
  {
    var scope := s.campaigns[c].scope;
    assert ValidScope(scope);
    hide RowShape, PeopleExist, Settled, Chained, Live, IsNextCycle, Repeats, CannotTell, CloseAll, ReviewsExactly;
    hide SameItemsOf;
    var t := CloseAll(v, later, env);
    CloseAllEffect(v, later, env);
    forall i | 0 <= i < |t.campaigns| && t.campaigns[i].parent == Some(c)
      ensures ReviewsExactly(t.items, i, v, scope, env)
    {
      if i < |v.campaigns| {
        assert v.campaigns[i].parent == Some(c);
        assert i == |s.campaigns|;
        CloseAllLeavesOtherItems(v, later, i, env);
        SameItemsSameRoster(v.items, t.items, i, v, scope, env);
      } else {
        assert false;
      }
    }
  }

  lemma SameResources(s: Store, t: Store, r: Campaign, now: int)
    requires t.resources == s.resources && RowShape(r)
    ensures Repeats(t, r, now) <==> Repeats(s, r, now)
  {
  }

  /** At most one campaign follows c, it was started by this sweep, and it is the next cycle of c. */
  predicate ChildrenAreNextCycles(s: Store, t: Store, c: CampaignId, now: int)
    requires c < |s.campaigns|
  {
    && (forall i :: 0 <= i < |t.campaigns| && t.campaigns[i].parent == Some(c) ==>
          |s.campaigns| <= i && IsNextCycle(s.campaigns[c], t.campaigns[i], now))
    && (forall i, j :: 0 <= i < j < |t.campaigns| && t.campaigns[i].parent == Some(c) ==>
          t.campaigns[j].parent != Some(c))
  }

  // ----- starting what is scheduled

  /** A due holder that ends the sweep. Routed through a workflow: if it is closed, the request rebuilt from it does not
      validate; if it is still open, the notification of the skipped start has no recipient. Or closed and with a due
      date for its next campaign that cannot be expressed. */
  predicate Blocked(r: Campaign, now: int) { Due(r, now) && StartRaises(r, now) }

  /** Serving one due holder: it is no longer due, other rows stay, and at most one row is added, which is open and
      neither due nor overdue. */
  lemma StartNextEffect(s: Store, h: CampaignId, env: Env)
    requires WellFormed(s) && h < |s.campaigns| && Due(s.campaigns[h], env.now)
    ensures var x := StartNext(s, h, env);
            if Blocked(s.campaigns[h], env.now) then x.Crashed? else !x.Crashed? && ServedOne(s, x, h, env)
  {
    hide RowShape, PeopleExist, ValidForm, NextRun;
    ScheduledFormValidExactly(s.campaigns[h], env.now);
    ScheduleIsWhole(s.campaigns[h]);
  }

  /** The next campaign of the schedule of r. */
  predicate ContinuesSchedule(r: Campaign, q: Campaign, env: Env) {
    && RowShape(r) && r.scheduleDay.Some? && q.nextRunAt == Some(Following(r, env))
    && q.dueAt == env.now + r.scheduleDueDays.value * DAY
    && q.scheduleEvery == r.scheduleEvery && q.scheduleDueDays == r.scheduleDueDays
    && q.scope == r.scope && q.reviewer == r.reviewer && q.fallback == r.fallback && q.unlockHours == r.unlockHours
    && q.onNoResponse == r.onNoResponse && q.scheduleDay == r.scheduleDay && q.scheduleTime == r.scheduleTime
    && q.frequencyDays.None? && q.createdAt == env.now && q.completedAt.None?
  }

  predicate ServedOne(s: Store, x: Start, h: CampaignId, env: Env)
    requires h < |s.campaigns| && !x.Crashed?
  {
    var t := x.s;
    && t.users == s.users && t.resources == s.resources && t.assignments == s.assignments && s.items <= t.items
    && |s.campaigns| <= |t.campaigns| <= |s.campaigns| + 1
    && t.campaigns[h] == s.campaigns[h].(nextRunAt := t.campaigns[h].nextRunAt) && !Due(t.campaigns[h], env.now)
    && (forall i :: 0 <= i < |s.campaigns| && i != h ==> t.campaigns[i] == s.campaigns[i])
    && (|s.campaigns| < |t.campaigns| ==>
          var q := t.campaigns[|s.campaigns|];
          && s.campaigns[h].status.Completed? && ContinuesSchedule(s.campaigns[h], q, env) && q.nextRunAt.Some?
          && q.status.Active? && !Due(q, env.now) && env.now < q.dueAt)
    && (if x.Started?
        then |t.campaigns| == |s.campaigns| + 1 && t.campaigns[|s.campaigns|].parent == Some(h)
             && t.campaigns[h].nextRunAt.None?
        else RowShape(s.campaigns[h]) && s.campaigns[h].scheduleDay.Some?
             && t.campaigns[h].nextRunAt == Some(Following(s.campaigns[h], env))
             && (|s.campaigns| < |t.campaigns| ==> t.campaigns[|s.campaigns|].parent.None?))
  }

  /** Serving several holders: rows change only in when they run next, and every added row is open, neither due nor
      overdue, and continues the schedule of its parent. */
  predicate ServedMany(s: Store, t: Store, ids: seq<CampaignId>, env: Env) {
    && |s.campaigns| <= |t.campaigns|
    && (forall i :: 0 <= i < |s.campaigns| ==>
          t.campaigns[i] == s.campaigns[i].(nextRunAt := t.campaigns[i].nextRunAt))
    && (forall i :: 0 <= i < |s.campaigns| && i !in ids ==> t.campaigns[i] == s.campaigns[i])
    && (forall i :: |s.campaigns| <= i < |t.campaigns| ==>
          && t.campaigns[i].status.Active? && !Due(t.campaigns[i], env.now) && env.now < t.campaigns[i].dueAt
          && (t.campaigns[i].parent.Some? ==>
                && t.campaigns[i].parent.value in ids && t.campaigns[i].parent.value < |s.campaigns|
                && ContinuesSchedule(s.campaigns[t.campaigns[i].parent.value], t.campaigns[i], env)))
  }

  /** In stored rows a holder is due exactly when its next run has come. */
  lemma DueRuns(s: Store, now: int)
    requires WellFormed(s)
    ensures forall i :: 0 <= i < |s.campaigns| ==>
              (Due(s.campaigns[i], now) <==> s.campaigns[i].nextRunAt.Some? && s.campaigns[i].nextRunAt.value <= now)
  {
  }

  /** One of the first j + 1 holders ends the sweep. */
  predicate BlockedUpTo(rows: seq<Campaign>, ids: seq<CampaignId>, j: int, now: int) {
    exists i :: 0 <= i <= j && i < |ids| && ids[i] < |rows| && Blocked(rows[ids[i]], now)
  }

  /** The sweep crashes exactly when it meets a blocked holder; that holder and those after it stay due, and nobody
      else does. */
  lemma {:induction false} StartAllEffect(s: Store, ids: seq<CampaignId>, env: Env)
    requires WellFormed(s) && Distinct(ids) && AllDue(s, ids, env.now)
    ensures var r := StartAll(s, ids, env);
            && ServedMany(s, r.s, ids, env)
            && (r.crashed <==> BlockedUpTo(s.campaigns, ids, |ids|, env.now))
            && (forall j :: 0 <= j < |ids| ==>
                  (Due(r.s.campaigns[ids[j]], env.now) <==> BlockedUpTo(s.campaigns, ids, j, env.now)))
            && (forall j :: 0 <= j < |ids| && BlockedUpTo(s.campaigns, ids, j, env.now) ==>
                  r.s.campaigns[ids[j]] == s.campaigns[ids[j]])
    decreases |ids|
  {
    hide RowShape, PeopleExist, StartNext, ContinuesSchedule;
    var r := StartAll(s, ids, env);
    if ids != [] {
      StartNextEffect(s, ids[0], env);
      if !Blocked(s.campaigns[ids[0]], env.now) {
        var s1 := StartNext(s, ids[0], env).s;
        assert forall j :: 0 <= j < |ids[1..]| ==> ids[1..][j] == ids[j + 1];
        StartAllEffect(s1, ids[1..], env);
        TailCarries(s, s1, r.s, ids, env.now);
        ServedManyComposes(s, StartNext(s, ids[0], env), r.s, ids, env);
      }
    }
  }

  lemma TailCarries(s: Store, s1: Store, t: Store, ids: seq<CampaignId>, now: int)
    requires ids != [] && Distinct(ids) && |s.campaigns| <= |s1.campaigns| <= |t.campaigns|
    requires forall j :: 0 <= j < |ids| ==> ids[j] < |s.campaigns|
    requires forall i :: 0 <= i < |s.campaigns| && i != ids[0] ==> s1.campaigns[i] == s.campaigns[i]
    requires !Due(s1.campaigns[ids[0]], now) && !Blocked(s.campaigns[ids[0]], now)
    requires forall i :: 0 <= i < |s1.campaigns| && i !in ids[1..] ==> t.campaigns[i] == s1.campaigns[i]
    requires forall j :: 0 <= j < |ids| - 1 ==>
               (Due(t.campaigns[ids[1..][j]], now) <==> BlockedUpTo(s1.campaigns, ids[1..], j, now))
    requires forall j :: 0 <= j < |ids| - 1 && BlockedUpTo(s1.campaigns, ids[1..], j, now) ==>
               t.campaigns[ids[1..][j]] == s1.campaigns[ids[1..][j]]
    ensures BlockedUpTo(s1.campaigns, ids[1..], |ids| - 1, now) <==> BlockedUpTo(s.campaigns, ids, |ids|, now)
    ensures forall j :: 0 <= j < |ids| ==> (Due(t.campaigns[ids[j]], now) <==> BlockedUpTo(s.campaigns, ids, j, now))
    ensures forall j :: 0 <= j < |ids| && BlockedUpTo(s.campaigns, ids, j, now) ==>
              t.campaigns[ids[j]] == s.campaigns[ids[j]]
  {
    hide Due, Blocked;
    var tail := ids[1..];
    assert forall j :: 0 <= j < |tail| ==> tail[j] == ids[j + 1] && s1.campaigns[tail[j]] == s.campaigns[tail[j]];
    assert ids[0] !in tail;
    forall j | 0 <= j <= |ids|
      ensures BlockedUpTo(s.campaigns, ids, j, now) <==> BlockedUpTo(s1.campaigns, tail, j - 1, now)
    {
      if BlockedUpTo(s.campaigns, ids, j, now) {
        var i :| 0 <= i <= j && i < |ids| && Blocked(s.campaigns[ids[i]], now);
        assert tail[i - 1] == ids[i] && Blocked(s1.campaigns[tail[i - 1]], now);
      }
      if BlockedUpTo(s1.campaigns, tail, j - 1, now) {
        var i :| 0 <= i <= j - 1 && i < |tail| && tail[i] < |s1.campaigns| && Blocked(s1.campaigns[tail[i]], now);
        assert Blocked(s.campaigns[ids[i + 1]], now);
      }
    }
    forall j | 0 <= j < |ids|
      ensures Due(t.campaigns[ids[j]], now) <==> BlockedUpTo(s.campaigns, ids, j, now)
      ensures BlockedUpTo(s.campaigns, ids, j, now) ==> t.campaigns[ids[j]] == s.campaigns[ids[j]]
    {
      if j > 0 {
        assert tail[j - 1] == ids[j];
      }
    }
  }

  lemma ServedManyComposes(s: Store, x: Start, t: Store, ids: seq<CampaignId>, env: Env)
    requires ids != [] && Distinct(ids) && forall j :: 0 <= j < |ids| ==> ids[j] < |s.campaigns|
    requires !x.Crashed? && ServedOne(s, x, ids[0], env) && ServedMany(x.s, t, ids[1..], env)
    ensures ServedMany(s, t, ids, env)
  {
    hide Due, ContinuesSchedule;
    var tail := ids[1..];
    assert forall j :: 0 <= j < |tail| ==> tail[j] == ids[j + 1];
    assert forall i :: i in ids <==> i == ids[0] || i in tail;
    assert forall i :: i in tail ==> i < |s.campaigns| && i != ids[0];
    forall i | |s.campaigns| <= i < |t.campaigns|
      ensures && t.campaigns[i].status.Active? && !Due(t.campaigns[i], env.now) && env.now < t.campaigns[i].dueAt
              && (t.campaigns[i].parent.Some? ==>
                    && t.campaigns[i].parent.value in ids && t.campaigns[i].parent.value < |s.campaigns|
                    && ContinuesSchedule(s.campaigns[t.campaigns[i].parent.value], t.campaigns[i], env))
    {
      if i < |x.s.campaigns| {
        assert i == |s.campaigns| && i !in tail && t.campaigns[i] == x.s.campaigns[i];
      } else if t.campaigns[i].parent.Some? {
        var p := t.campaigns[i].parent.value;
        assert p in tail && x.s.campaigns[p] == s.campaigns[p];
      }
    }
  }

  /** The sweep does not get to row h, or ends there: some holder up to h is blocked. */
  predicate BlockedBefore(rows: seq<Campaign>, h: nat, now: int) {
    exists b :: 0 <= b <= h && b < |rows| && Blocked(rows[b], now)
  }

  /** The scheduled sweep at time t ends early exactly when some due holder is blocked: it is routed through a workflow,
      or closed with a due date for its next campaign that cannot be expressed. The first such holder stays due, and so
      does every due holder after it, with their rows as they were; nothing else is due at t when the sweep is over. */
  lemma ScheduledSweepClearsExactly(s: Store, env: Env)
    requires WellFormed(s)
    ensures var r := SweepScheduled(s, env); var t := r.s;
            && ServedMany(s, t, DueIds(s, env.now), env)
            && (r.crashed <==> exists b :: 0 <= b < |s.campaigns| && Blocked(s.campaigns[b], env.now))
            && (forall h :: 0 <= h < |t.campaigns| ==>
                  (Due(t.campaigns[h], env.now) <==>
                     && h < |s.campaigns| && Due(s.campaigns[h], env.now)
                     && BlockedBefore(s.campaigns, h, env.now)))
            && (forall h :: 0 <= h < |t.campaigns| ==>
                  (Due(t.campaigns[h], env.now) <==>
                     t.campaigns[h].nextRunAt.Some? && t.campaigns[h].nextRunAt.value <= env.now))
            && (forall h :: 0 <= h < |s.campaigns| && BlockedBefore(s.campaigns, h, env.now) ==>
                  t.campaigns[h] == s.campaigns[h])
  {
    hide RowShape, PeopleExist, StartAll, ContinuesSchedule, Blocked, Due;
    var ids := DueIds(s, env.now);
    var t := SweepScheduled(s, env).s;
    StartAllEffect(s, ids, env);
    BlockedByIds(s, |ids|, env.now);
    DueRuns(t, env.now);
    forall h | 0 <= h < |t.campaigns|
      ensures Due(t.campaigns[h], env.now) <==>
                h < |s.campaigns| && Due(s.campaigns[h], env.now) && BlockedBefore(s.campaigns, h, env.now)
      ensures h < |s.campaigns| && BlockedBefore(s.campaigns, h, env.now) ==> t.campaigns[h] == s.campaigns[h]
    {
      if h in ids {
        var j :| 0 <= j < |ids| && ids[j] == h;
        BlockedByIds(s, j, env.now);
      }
    }
  }

  /** Looking through the due holders up to one of them is looking through the table up to its row. */
  lemma BlockedByIds(s: Store, j: nat, now: int)
    requires j <= |DueIds(s, now)|
    ensures var ids := DueIds(s, now);
            BlockedUpTo(s.campaigns, ids, j, now)
            <==> BlockedBefore(s.campaigns, if j < |ids| then ids[j] else |s.campaigns|, now)
  {
    hide StartRaises;
    var ids := DueIds(s, now);
    var h := if j < |ids| then ids[j] else |s.campaigns|;
    if BlockedBefore(s.campaigns, h, now) {
      var b: nat :| b <= h && b < |s.campaigns| && Blocked(s.campaigns[b], now);
      assert b in ids;
      var i :| 0 <= i < |ids| && ids[i] == b;
      assert i <= j;
    }
    if BlockedUpTo(s.campaigns, ids, j, now) {
      var i :| 0 <= i <= j && i < |ids| && ids[i] < |s.campaigns| && Blocked(s.campaigns[ids[i]], now);
      assert j < |ids| ==> ids[i] <= ids[j];
    }
  }

  /** A sweep at a time when nothing is due changes nothing, whatever the directory answers. So a second sweep at the
      same time changes nothing. */
  lemma QuietSweepChangesNothing(s: Store, env: Env)
    requires WellFormed(s) && forall i :: 0 <= i < |s.campaigns| ==> !Due(s.campaigns[i], env.now)
    ensures SweepScheduled(s, env) == Sweep(s, 0, false)
  {
    hide RowShape, PeopleExist, Due, StartNext;
    NoneSelected(s.campaigns, r => Due(r, env.now), |s.campaigns|);
  }

  lemma {:induction false} NoneSelected(rows: seq<Campaign>, p: Campaign -> bool, n: nat)
    requires n <= |rows| && forall i :: 0 <= i < n ==> !p(rows[i])
    ensures IdsBelow(rows, p, n) == []
  {
    if n > 0 {
      NoneSelected(rows, p, n - 1);
    }
  }

  /** The sweep is a fixpoint on all tables: at the same time it changes nothing again, whatever the directory answers,
      and ends early again if it did before. */
  lemma SecondSweepChangesNothing(s: Store, env: Env, again: Env)
    requires WellFormed(s) && again.now == env.now
    ensures var r := SweepScheduled(s, env); SweepScheduled(r.s, again) == Sweep(r.s, 0, r.crashed)
  {
    hide RowShape, PeopleExist, SweepScheduled, ServedMany, Due, StartRaises;
    ScheduledSweepClearsExactly(s, env);
    var r := SweepScheduled(s, env);
    if r.crashed {
      var b: nat :| b < |s.campaigns| && Blocked(s.campaigns[b], env.now);
      var first := FirstBlocked(s, b, env.now);
      SweepKeepsRows(s, env);
      assert BlockedBefore(s.campaigns, first, env.now) && r.s.campaigns[first] == s.campaigns[first];
      BlockedFirst(r.s, first, again);
    } else {
      QuietSweepChangesNothing(r.s, again);
    }
  }

  lemma FirstBlocked(s: Store, b: nat, now: int) returns (first: nat)
    requires b < |s.campaigns| && Blocked(s.campaigns[b], now)
    ensures first < |s.campaigns| && Blocked(s.campaigns[first], now)
    ensures forall i :: 0 <= i < first ==> !Blocked(s.campaigns[i], now)
  {
    if i: nat :| i < b && Blocked(s.campaigns[i], now) {
      first := FirstBlocked(s, i, now);
    } else {
      first := b;
    }
  }

  /** A blocked holder that is the first to be due ends the sweep at once. */
  lemma BlockedFirst(s: Store, b: CampaignId, env: Env)
    requires WellFormed(s) && b < |s.campaigns| && Blocked(s.campaigns[b], env.now)
    requires forall i :: 0 <= i < b ==> !Due(s.campaigns[i], env.now)
    ensures SweepScheduled(s, env) == Sweep(s, 0, true)
  {
    hide RowShape, PeopleExist, StartNext, Due, StartRaises;
    var ids := DueIds(s, env.now);
    assert b in ids && ids[0] in ids;
    var j :| 0 <= j < |ids| && ids[j] == b;
    assert ids[0] == b;
    StartNextEffect(s, b, env);
  }

  /** However many slots were missed, a chain gains at most one campaign in a scheduled sweep, and a chain with an
      open campaign gains none. */
  lemma ChainsGainAtMostOne(s: Store, env: Env, i: CampaignId, j: CampaignId)
    requires Inv(s) && |s.campaigns| <= j < |SweepScheduled(s, env).s.campaigns| && i < j
    requires |s.campaigns| <= i || s.campaigns[i].status.Active?
    ensures Root(SweepScheduled(s, env).s, i) != Root(SweepScheduled(s, env).s, j)
  {
    hide RowShape, PeopleExist, Chained, Settled, Live, StartAll, ContinuesSchedule;
    var t := SweepScheduled(s, env).s;
    StartAllKeepsInv(s, DueIds(s, env.now), env);
    ScheduledSweepClearsExactly(s, env);
    assert t.campaigns[i].status.Active?;
    if Root(t, i) == Root(t, j) {
      OnlyTheLastOfAChainIsOpen(t, i, j);
    }
  }

  // ----- what the started campaigns review

  /** Serving a holder: the campaign it starts reviews exactly the access in its scope at that time, and nothing else
      gets an item. */
  lemma StartedRosterIsExact(s: Store, h: CampaignId, env: Env)
    requires WellFormed(s) && h < |s.campaigns| && s.campaigns[h].scheduleDay.Some?
    ensures var x := StartNext(s, h, env);
            && (x.Started? ==> RosterIsExact(s, x.s, |s.campaigns|, s.campaigns[h].scope, env))
            && (x.Kept? ==> x.s.items == s.items)
  {
    var row := s.campaigns[h];
    var f := ScheduledForm(row, env.now);
    ScheduledFormValidExactly(row, env.now);
    if row.status.Completed? && ValidForm(f) && TryCreate(s, f, env).Created? {
      SnapshotIsExact(s, f, env);
    }
    hide RowShape, PeopleExist, ValidForm, Matching, MissingReference, NewRow, Following, RosterIsExact;
  }

  /** Every campaign that was started since s reviews exactly what was in its scope in s, and a stranded one nothing;
      the items of s are untouched, and no other campaign has a new one. */
  predicate RostersAreExact(s: Store, t: Store, env: Env)
    requires WellFormed(t)
  {
    && s.items <= t.items && (forall k :: |s.items| <= k < |t.items| ==> |s.campaigns| <= t.items[k].campaign)
    && forall i :: |s.campaigns| <= i < |t.campaigns| ==> RosterOfRow(s, t, i, env)
  }

  predicate RosterOfRow(s: Store, t: Store, i: CampaignId, env: Env)
    requires WellFormed(t) && i < |t.campaigns|
  {
    if t.campaigns[i].parent.Some? then ReviewsExactly(t.items, i, s, t.campaigns[i].scope, env)
    else !HasItem(t.items, i)
  }

  /** What serving one holder does to the rosters. */
  predicate ServedRoster(s: Store, x: Start, h: CampaignId, env: Env)
    requires WellFormed(s) && h < |s.campaigns| && !x.Crashed?
  {
    if x.Started? then RosterIsExact(s, x.s, |s.campaigns|, s.campaigns[h].scope, env) else x.s.items == s.items
  }

  /** The row that serving a holder added, after more holders were served. */
  lemma FirstRosterStays(s: Store, x: Start, t: Store, h: CampaignId, rest: seq<CampaignId>, env: Env)
    requires WellFormed(s) && h < |s.campaigns| && !x.Crashed? && ServedOne(s, x, h, env) && ServedRoster(s, x, h, env)
    requires WellFormed(x.s) && WellFormed(t) && ServedMany(x.s, t, rest, env) && RostersAreExact(x.s, t, env)
    ensures forall i :: |s.campaigns| <= i < |x.s.campaigns| ==> RosterOfRow(s, t, i, env)
  {
    var c := |s.campaigns|;
    hide RowShape, PeopleExist, ReviewsExactly, Due, ValidScope;
    ScopeIsValid(s, h);
    if x.Started? {
      assert t.campaigns[c].scope == s.campaigns[h].scope;
      assert SameItemsOf(x.s.items, t.items, c);
      SameItemsSameRoster(x.s.items, t.items, c, s, t.campaigns[c].scope, env);
    }
  }

  lemma LaterRostersCarry(s: Store, s1: Store, t: Store, env: Env)
    requires WellFormed(s) && WellFormed(s1) && WellFormed(t) && RostersAreExact(s1, t, env)
    requires s1.assignments == s.assignments && s1.users == s.users && |s.campaigns| <= |s1.campaigns|
    requires s.items <= s1.items
    requires forall k :: |s.items| <= k < |s1.items| ==> |s.campaigns| <= s1.items[k].campaign
    requires forall i :: |s.campaigns| <= i < |s1.campaigns| && i < |t.campaigns| ==> RosterOfRow(s, t, i, env)
    ensures RostersAreExact(s, t, env)
  {
    forall i | |s1.campaigns| <= i < |t.campaigns|
      ensures RosterOfRow(s, t, i, env)
    {
      assert RosterOfRow(s1, t, i, env);
      SameAccessSameRoster(t.items, i, s1, s, t.campaigns[i].scope, env);
    }
    hide RowShape, PeopleExist, RosterOfRow;
  }

  /** Serving the first of several due holders: its effect, and the others can be served after it. */
  lemma FirstServed(s: Store, ids: seq<CampaignId>, env: Env)
    requires WellFormed(s) && ids != [] && Distinct(ids) && AllDue(s, ids, env.now)
    requires !StartNext(s, ids[0], env).Crashed?
    ensures var x := StartNext(s, ids[0], env);
            && Distinct(ids[1..]) && AllDue(x.s, ids[1..], env.now)
            && ServedOne(s, x, ids[0], env) && ServedRoster(s, x, ids[0], env)
  {
    hide RowShape, PeopleExist, StartNext, ContinuesSchedule, RosterIsExact, StartRaises;
    StartNextEffect(s, ids[0], env);
    StartedRosterIsExact(s, ids[0], env);
    assert forall j :: 0 <= j < |ids[1..]| ==> ids[1..][j] == ids[j + 1];
  }

  lemma RosterOfOne(s: Store, x: Start, h: CampaignId, env: Env)
    requires WellFormed(s) && h < |s.campaigns| && !x.Crashed? && ServedOne(s, x, h, env) && ServedRoster(s, x, h, env)
    ensures && x.s.assignments == s.assignments && x.s.users == s.users && s.items <= x.s.items
            && |s.campaigns| <= |x.s.campaigns|
            && (forall k :: |s.items| <= k < |x.s.items| ==> |s.campaigns| <= x.s.items[k].campaign)
  {
    hide RowShape, PeopleExist, ReviewsExactly, ContinuesSchedule, Due;
  }

  lemma {:induction false} StartAllRosters(s: Store, ids: seq<CampaignId>, env: Env)
    requires WellFormed(s) && Distinct(ids) && AllDue(s, ids, env.now)
    ensures var t := StartAll(s, ids, env).s;
            && t.assignments == s.assignments && t.users == s.users && |s.campaigns| <= |t.campaigns|
            && RostersAreExact(s, t, env)
    decreases |ids|
  {
    hide RowShape, PeopleExist, StartNext, ReviewsExactly, RosterOfRow, Distinct, ServedOne, ServedRoster, ServedMany;
    if ids != [] && !StartNext(s, ids[0], env).Crashed? {
      FirstServed(s, ids, env);
      var x := StartNext(s, ids[0], env);
      RosterOfOne(s, x, ids[0], env);
      StartAllRosters(x.s, ids[1..], env);
      StartAllEffect(x.s, ids[1..], env);
      var t := StartAll(x.s, ids[1..], env).s;
      assert StartAll(s, ids, env).s == t;
      hide StartAll, Due, RostersAreExact;
      FirstRosterStays(s, x, t, ids[0], ids[1..], env);
      LaterRostersCarry(s, x.s, t, env);
    }
  }

  /** A scheduled sweep: each campaign it starts reviews exactly the access in its scope as the sweep found it, a
      stranded one reviews nothing, and neither the access nor any earlier item is touched. */
  lemma SweepRostersAreExact(s: Store, env: Env)
    requires WellFormed(s)
    ensures var t := SweepScheduled(s, env).s;
            t.assignments == s.assignments && t.users == s.users && RostersAreExact(s, t, env)
  {
    hide RowShape, PeopleExist, StartAll, RostersAreExact;
    StartAllRosters(s, DueIds(s, env.now), env);
  }

  // ----- schedules are conserved

  /** How many campaigns hold a schedule's next run. */
  function Holders(rows: seq<Campaign>): nat {
    if rows == [] then 0
    else Holders(rows[..|rows| - 1]) + (if rows[|rows| - 1].nextRunAt.Some? then 1 else 0)
  }

  lemma {:induction false} HoldersOfReplaced(rows: seq<Campaign>, later: seq<Campaign>, h: nat)
    requires h < |rows| == |later| && forall i :: 0 <= i < |rows| && i != h ==> later[i] == rows[i]
    ensures Holders(later) + (if rows[h].nextRunAt.Some? then 1 else 0)
            == Holders(rows) + (if later[h].nextRunAt.Some? then 1 else 0)
  {
    var n := |rows| - 1;
    if h < n {
      HoldersOfReplaced(rows[..n], later[..n], h);
    } else {
      assert rows[..n] == later[..n];
    }
  }

  lemma ServedOneHolders(s: Store, x: Start, h: CampaignId, env: Env)
    requires h < |s.campaigns| && s.campaigns[h].nextRunAt.Some? && !x.Crashed? && ServedOne(s, x, h, env)
    ensures Holders(x.s.campaigns)
            == Holders(s.campaigns) + |x.s.campaigns| - |s.campaigns| - (if x.Started? then 1 else 0)
  {
    var n := |s.campaigns|;
    HoldersOfReplaced(s.campaigns, x.s.campaigns[..n], h);
    assert n == |x.s.campaigns| ==> x.s.campaigns[..n] == x.s.campaigns;
  }

  lemma {:induction false} StartAllHolders(s: Store, ids: seq<CampaignId>, env: Env)
    requires WellFormed(s) && Distinct(ids) && AllDue(s, ids, env.now)
    ensures var r := StartAll(s, ids, env);
            Holders(r.s.campaigns) == Holders(s.campaigns) + |r.s.campaigns| - |s.campaigns| - r.started
    decreases |ids|
  {
    hide RowShape, PeopleExist, StartNext, ContinuesSchedule, Holders;
    if ids != [] {
      StartNextEffect(s, ids[0], env);
      if !Blocked(s.campaigns[ids[0]], env.now) {
        var x := StartNext(s, ids[0], env);
        ServedOneHolders(s, x, ids[0], env);
        StartAllHolders(x.s, ids[1..], env);
      }
    }
  }

  /** A scheduled sweep conserves schedules: each start hands one schedule from one row to one new row. The number of
      schedules grows only by the rows that were added without being started, which is the number of starts whose
      snapshot failed after the row was stored. */
  lemma SchedulesAreConserved(s: Store, env: Env)
    requires WellFormed(s)
    ensures var r := SweepScheduled(s, env);
            Holders(r.s.campaigns) == Holders(s.campaigns) + |r.s.campaigns| - |s.campaigns| - r.started
  {
    hide StartAll, Holders;
    StartAllHolders(s, DueIds(s, env.now), env);
  }

  /** Rows that are closed at most, and added rows that hold no schedule. */
  predicate SameHolders(rows: seq<Campaign>, later: seq<Campaign>) {
    && |rows| <= |later|
    && (forall i :: 0 <= i < |rows| ==>
          later[i] == rows[i].(status := later[i].status, completedAt := later[i].completedAt))
    && (forall i :: |rows| <= i < |later| ==> later[i].nextRunAt.None?)
  }

  lemma {:induction false} SameHoldersCount(rows: seq<Campaign>, later: seq<Campaign>)
    requires SameHolders(rows, later)
    ensures Holders(later) == Holders(rows)
  {
    if later != [] {
      var n := |later| - 1;
      SameHoldersCount(if |rows| == |later| then rows[..n] else rows, later[..n]);
    }
  }

  /** By how many one step changes the number of schedules: creating adds the one asked for, an edit adds one or takes
      one away as its fields say, and a scheduled sweep adds one for every row it strands. Deciding, completing, the
      overdue sweep and the other services change none. */
  function ScheduleChange(s: Store, step: Step): int
    requires WellFormed(s)
  {
    match step
    case CreateStep(form, env) => if form.scheduleDay.Some? && Create(s, form, env).result.Success? then 1 else 0
    case UpdateStep(c, e, env) =>
      if Update(s, c, e, env).result.Failure? then 0
      else
        var had := s.campaigns[c].scheduleDay.Some?;
        var has := AsksForSchedule(e) || (had && !e.clearSchedule && !AsksForFrequency(e));
        (if has then 1 else 0) - (if had then 1 else 0)
    case ScheduledStep(env) =>
      var r := SweepScheduled(s, env); |r.s.campaigns| - |s.campaigns| - r.started
    case _ => 0
  }

  /** The number of schedules after any step, exactly. */
  lemma SchedulesPerStep(s: Store, step: Step)
    requires Inv(s)
    ensures Holders(Apply(s, step).campaigns) == Holders(s.campaigns) + ScheduleChange(s, step)
  {
    hide RowShape, PeopleExist, Chained, Settled, Live, StartAll, SweepOverdue, Decide, Complete, Holders, SameHolders;
    match step
    case CreateStep(form, env) => CreatingHolds(s, form, env);
    case UpdateStep(c, e, env) => EditingHolds(s, c, e, env);
    case ScheduledStep(env) => SchedulesAreConserved(s, env);
    case _ =>
      OtherStepsKeepHolders(s, step);
      SameHoldersCount(s.campaigns, Apply(s, step).campaigns);
  }

  /** Deciding, completing, the overdue sweep and the other services leave every schedule and next run as they are. */
  lemma OtherStepsKeepHolders(s: Store, step: Step)
    requires Inv(s) && !step.CreateStep? && !step.UpdateStep? && !step.ScheduledStep?
    ensures SameHolders(s.campaigns, Apply(s, step).campaigns)
  {
    hide RowShape, PeopleExist, Chained, Settled, Live, CloseUntil, Decide, Complete, IsNextCycle, ClosedIds, EndsSweep;
    match step
    case DecideStep(k, verdict, actor, env) => DecidingHolds(s, k, verdict, actor, env);
    case CompleteStep(c, env) => CompletingHolds(s, c, env);
    case OverdueStep(env) => OverdueSweepClosesExactly(s, env);
    case WorldStep(t) =>
  }

  lemma CreatingHolds(s: Store, f: ReviewerForm, env: Env)
    requires WellFormed(s)
    ensures Holders(Create(s, f, env).s.campaigns)
            == Holders(s.campaigns) + if f.scheduleDay.Some? && Create(s, f, env).result.Success? then 1 else 0
  {
    hide RowShape, PeopleExist, Matching, MissingReference;
    if TryCreate(s, f, env).Created? {
      var rows := TryCreate(s, f, env).s.campaigns;
      assert rows[..|s.campaigns|] == s.campaigns && rows[|s.campaigns|] == NewRow(f, env);
    }
  }

  lemma EditingHolds(s: Store, c: CampaignId, e: EditForm, env: Env)
    requires WellFormed(s)
    ensures Holders(Update(s, c, e, env).s.campaigns) == Holders(s.campaigns) + ScheduleChange(s, UpdateStep(c, e, env))
  {
    hide Holders, EditRow, PeopleExist;
    if Update(s, c, e, env).result.Success? {
      var row := s.campaigns[c];
      EditKeepsShape(row, e, s.users.Keys, env);
      EditedRowExactly(row, e, s.users.Keys, env);
      HoldersOfReplaced(s.campaigns, Update(s, c, e, env).s.campaigns, c);
    }
  }

  lemma CompletingHolds(s: Store, c: CampaignId, env: Env)
    requires Inv(s)
    ensures SameHolders(s.campaigns, Complete(s, c, env).s.campaigns)
  {
    hide RowShape, PeopleExist, Chained, Settled, Live, CloseCampaign, NextCycleExactly, IsNextCycle;
    if c < |s.campaigns| && s.campaigns[c].status.Active? {
      CompleteEffect(s, c, env);
    }
  }

  lemma DecidingHolds(s: Store, k: ItemId, verdict: Verdict, actor: Actor, env: Env)
    requires Inv(s)
    ensures SameHolders(s.campaigns, Decide(s, k, verdict, actor, env).s.campaigns)
  {
    hide RowShape, PeopleExist, Chained, Settled, Live, SameHolders, CloseWhenDone, Closes, Authorize;
    SameAsItself(s.campaigns);
    if Recorded(Decide(s, k, verdict, actor, env)) {
      var c := s.items[k].campaign;
      AuthorizedExactly(s.campaigns[c], actor, env.now);
      var s1 := if verdict.TakeAway? then Revoke(s, s.items[k].assignment, env).0 else s;
      var decider := Authorize(s.campaigns[c], actor, env.now).value;
      if s.campaigns[c].status.Active? {
        OpenIsChildless(s, c);
      }
      ClosingHolds(RecordDecision(s1, k, verdict, decider, env), c, env);
    }
  }

  lemma SameAsItself(rows: seq<Campaign>)
    ensures SameHolders(rows, rows)
  {
  }

  lemma ClosingHolds(s: Store, c: CampaignId, env: Env)
    requires WellFormed(s) && c < |s.campaigns| && s.campaigns[c].workflow.None?
    requires s.campaigns[c].status.Active? ==> Childless(s, c)
    ensures SameHolders(s.campaigns, CloseWhenDone(s, c, env).campaigns)
  {
    hide RowShape, PeopleExist, Count, Spawn, NextCycleExactly, IsNextCycle;
    if CloseWhenDone(s, c, env) != s {
      var t := Finish(s, c, env);
      assert Childless(t, c);
      SpawnEffect(t, c, env);
    }
  }

  /** What becomes of a due holder, exactly: the next campaign starts when the holder is closed, the resources of its
      scope exist and its snapshot can be taken. When only the snapshot fails, a second, empty campaign of the same
      schedule is stranded. In every other case nothing is added. */
  lemma StartsOrStrandsExactly(s: Store, h: CampaignId, env: Env)
    requires WellFormed(s) && h < |s.campaigns| && Due(s.campaigns[h], env.now)
    requires !Blocked(s.campaigns[h], env.now)
    ensures var x := StartNext(s, h, env); var row := s.campaigns[h];
            var tried := row.status.Completed? && ResourcesExist(s, row.scope);
            && !x.Crashed?
            && (x.Started? <==> tried && !CannotTell(s, row.scope, env))
            && (|x.s.campaigns| == |s.campaigns| + 1 <==> tried)
  {
    var row := s.campaigns[h];
    ScheduledFormValidExactly(row, env.now);
    StartNextEffect(s, h, env);
    if row.status.Completed? {
      RoutedOneWay(row);
      OnlyResourcesCanBeMissing(s, row, ScheduledForm(row, env.now));
      hide RowShape, PeopleExist, ValidForm, Following, NewRow, MissingReference, Matching, ServedOne, ResourcesExist;
      MatchingExact(s, row.scope, env);
    }
  }

  /** Serving a holder duplicates its schedule exactly when it strands a row: the holder keeps the schedule and the
      stranded row holds it too. */
  lemma ScheduleIsDuplicatedExactly(s: Store, h: CampaignId, env: Env)
    requires WellFormed(s) && h < |s.campaigns| && Due(s.campaigns[h], env.now)
    requires !Blocked(s.campaigns[h], env.now)
    ensures var x := StartNext(s, h, env); var row := s.campaigns[h];
            var strands := row.status.Completed? && ResourcesExist(s, row.scope) && CannotTell(s, row.scope, env);
            !x.Crashed? && Holders(x.s.campaigns) == Holders(s.campaigns) + (if strands then 1 else 0)
  {
    hide RowShape, PeopleExist, StartNext, Holders, ContinuesSchedule, ResourcesExist, CannotTell;
    StartsOrStrandsExactly(s, h, env);
    StartNextEffect(s, h, env);
    ServedOneHolders(s, StartNext(s, h, env), h, env);
  }

  // ----- a holder that blocks for good

  /** No step touches a closed holder that blocks the sweep. */
  lemma StepLeavesBlocked(s: Store, step: Step, b: CampaignId, now: Clock)
    requires Inv(s) && b < |s.campaigns| && s.campaigns[b].status.Completed? && Blocked(s.campaigns[b], now)
    requires step.ScheduledStep? ==> now <= step.env.now
    ensures var t := Apply(s, step); b < |t.campaigns| && t.campaigns[b] == s.campaigns[b]
  {
    StepKeepsInv(s, step);
    hide RowShape, PeopleExist, Chained, Settled, Live, StartAll, SweepOverdue, Decide, Complete, EditRow, ServedMany;
    assert RowEvolves(s.campaigns[b], Apply(s, step).campaigns[b]);
    match step
    case CreateStep(f, env) => hide TryCreate; OpenKeepsRows(s, f, env);
    case UpdateStep(c, e, env) =>
    case ScheduledStep(env) =>
      assert BlockedBefore(s.campaigns, b, env.now);
      ScheduledSweepClearsExactly(s, env);
    case _ => OtherStepsKeepHolders(s, step);
  }

  lemma OpenKeepsRows(s: Store, f: ReviewerForm, env: Env)
    requires WellFormed(s)
    ensures s.campaigns <= Create(s, f, env).s.campaigns
  {
    hide RowShape, PeopleExist, NewRow, Matching, MissingReference;
  }

  /** Once a closed campaign with a reviewer blocks the sweep it does so for good: it can neither be edited nor
      served, so after any run every sweep from that time on ends at it, and no due holder after it is ever served
      again. */
  lemma {:induction false} BlockedForGood(s: Store, steps: seq<Step>, b: CampaignId, now: Clock, env: Env)
    requires Inv(s) && b < |s.campaigns| && s.campaigns[b].status.Completed? && Blocked(s.campaigns[b], now)
    requires now <= env.now
    requires forall i :: 0 <= i < |steps| && steps[i].ScheduledStep? ==> now <= steps[i].env.now
    ensures var t := Run(s, steps); var r := SweepScheduled(t, env);
            && b < |t.campaigns| && t.campaigns[b] == s.campaigns[b] && r.crashed
            && forall h :: b <= h < |t.campaigns| ==> h < |r.s.campaigns| && r.s.campaigns[h] == t.campaigns[h]
  {
    hide RowShape, PeopleExist, Chained, Settled, Live, StartAll, Apply, ServedMany;
    if steps != [] {
      var n := |steps| - 1;
      BlockedForGood(s, steps[..n], b, now, env);
      RunKeepsInv(s, steps[..n]);
      StepLeavesBlocked(Run(s, steps[..n]), steps[n], b, now);
    }
    var t := Run(s, steps);
    ScheduledSweepClearsExactly(t, env);
    SweepKeepsRows(t, env);
    assert Blocked(t.campaigns[b], env.now);
    assert forall h :: b <= h < |t.campaigns| ==> BlockedBefore(t.campaigns, h, env.now);
  }

  lemma SweepKeepsRows(s: Store, env: Env)
    requires WellFormed(s)
    ensures |s.campaigns| <= |SweepScheduled(s, env).s.campaigns|
  {
    hide RowShape, PeopleExist, StartAll, ContinuesSchedule;
    ScheduledSweepClearsExactly(s, env);
  }

  // ----- one tick of the worker

  datatype TickEnd = TickEnd(s: Store, crashed: bool)

  /** The worker closes what is overdue and then starts what is scheduled; an error that nothing catches ends its
      turn. */
  function Tick(s: Store, env: Env): TickEnd
    requires WellFormed(s)
  {
    var closing := SweepOverdue(s, env);
    if closing.crashed then TickEnd(closing.s, true)
    else
      var r := SweepScheduled(closing.s, env);
      TickEnd(r.s, r.crashed)
  }

  lemma QuietOverdueSweep(s: Store, env: Env)
    requires WellFormed(s) && forall i :: 0 <= i < |s.campaigns| ==> !Overdue(s.campaigns[i], env.now)
    ensures SweepOverdue(s, env) == Closing(s, 0, false)
  {
    hide RowShape, PeopleExist, Overdue, Complete;
    NoneSelected(s.campaigns, r => Overdue(r, env.now), |s.campaigns|);
  }

  /** A due holder, closed by now or by the overdue sweep before, whose next campaign would be due after the last
      date. */
  predicate EndsTick(r: Campaign, now: int) {
    EndsSweep(r, now) || (Due(r, now) && DuePastCalendar(r, now) && (r.status.Completed? || Overdue(r, now)))
  }

  /** An open campaign is not past its due date, and a next run that is held lies ahead. */
  predicate NothingMissed(r: Campaign, now: int) {
    (r.status.Active? ==> now < r.dueAt) && (r.nextRunAt.Some? ==> now < r.nextRunAt.value)
  }

  /** A worker tick ends early exactly when some row has a next due date that cannot be expressed. Otherwise it settles
      everything at its time: nothing is overdue or due, and a second tick at the same time changes nothing, whatever
      the directories answer then. */
  lemma TickSettlesExactly(s: Store, env: Env, again: Env)
    requires Inv(s) && again.now == env.now
    ensures var t := Tick(s, env);
            && Inv(t.s) && Evolves(s, t.s)
            && (t.crashed <==> exists i :: 0 <= i < |s.campaigns| && EndsTick(s.campaigns[i], env.now))
            && (!t.crashed ==>
                  && (forall i :: 0 <= i < |t.s.campaigns| ==> NothingMissed(t.s.campaigns[i], env.now))
                  && Tick(t.s, again) == t)
  {
    hide RowShape, PeopleExist, Chained, Settled, Live, StartAll, CloseUntil, ContinuesSchedule, IsNextCycle, Evolves;
    hide RepeatsPastCalendar, DuePastCalendar;
    var closing := SweepOverdue(s, env);
    CloseUntilKeepsInv(s, OverdueIds(s, env.now), env);
    OverdueSweepClosesExactly(s, env);
    if closing.crashed {
      var b: nat :| b < |s.campaigns| && EndsSweep(s.campaigns[b], env.now);
      assert EndsTick(s.campaigns[b], env.now);
    } else {
      AfterClosingSweep(s, env, again);
      EvolvesTransitive(s, closing.s, SweepScheduled(closing.s, env).s);
      BlockedAfterClosing(s, env);
    }
  }

  lemma AfterClosingSweep(s: Store, env: Env, again: Env)
    requires Inv(s) && again.now == env.now && !SweepOverdue(s, env).crashed
    ensures var s1 := SweepOverdue(s, env).s; var r := SweepScheduled(s1, env);
            && Inv(r.s) && Evolves(s1, r.s)
            && (r.crashed <==> exists b :: 0 <= b < |s1.campaigns| && Blocked(s1.campaigns[b], env.now))
            && (!r.crashed ==>
                  && (forall i :: 0 <= i < |r.s.campaigns| ==> NothingMissed(r.s.campaigns[i], env.now))
                  && Tick(r.s, again) == TickEnd(r.s, false))
  {
    hide RowShape, PeopleExist, Chained, Settled, Live, StartAll, CloseUntil, ContinuesSchedule, IsNextCycle, Evolves;
    hide RepeatsPastCalendar, DuePastCalendar, ClosedMany;
    CloseUntilKeepsInv(s, OverdueIds(s, env.now), env);
    OverdueSweepClosesExactly(s, env);
    var s1 := SweepOverdue(s, env).s;
    var r := SweepScheduled(s1, env);
    StartAllKeepsInv(s1, DueIds(s1, env.now), env);
    ScheduledSweepClearsExactly(s1, env);
    if !r.crashed {
      forall i | 0 <= i < |r.s.campaigns|
        ensures !Overdue(r.s.campaigns[i], env.now) && !Due(r.s.campaigns[i], env.now)
      {
        if i < |s1.campaigns| {
          assert !Overdue(s1.campaigns[i], env.now);
        }
      }
      DueRuns(r.s, env.now);
      QuietOverdueSweep(r.s, again);
      QuietSweepChangesNothing(r.s, again);
    }
  }

  /** Which holders block the scheduled sweep that follows, told from the tables before the closing. */
  lemma BlockedAfterClosing(s: Store, env: Env)
    requires Inv(s) && !SweepOverdue(s, env).crashed
    ensures var s1 := SweepOverdue(s, env).s;
            (exists b :: 0 <= b < |s1.campaigns| && Blocked(s1.campaigns[b], env.now))
            <==> exists i :: 0 <= i < |s.campaigns| && EndsTick(s.campaigns[i], env.now)
  {
    hide RowShape, PeopleExist, Chained, Settled, Live, CloseUntil, IsNextCycle, RepeatsPastCalendar;
    OverdueSweepClosesExactly(s, env);
    CloseUntilKeepsInv(s, OverdueIds(s, env.now), env);
    var s1 := SweepOverdue(s, env).s;
    forall i | 0 <= i < |s.campaigns|
      ensures Blocked(s1.campaigns[i], env.now) <==> EndsTick(s.campaigns[i], env.now)
    {
      assert !EndsSweep(s.campaigns[i], env.now);
    }
    if i: nat :| i < |s.campaigns| && EndsTick(s.campaigns[i], env.now) {
      assert Blocked(s1.campaigns[i], env.now);
    }
  }
}
