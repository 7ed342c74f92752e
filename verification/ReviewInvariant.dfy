/** What every interleaving of the engine's steps keeps, whatever the directory, the other services and the clock do
    in between. */
module ReviewInvariant {
  import opened Wrappers
  import opened Schedule
  import opened ReviewRows
  import opened ReviewModel

  predicate ReviewerRouted(s: Store) {
    forall i :: 0 <= i < |s.campaigns| ==> s.campaigns[i].workflow.None?
  }

  /** Parent links form linear chains, and a campaign that was followed by another is closed and holds no schedule. */
  predicate Chained(s: Store)
    requires WellFormed(s)
  {
    && (forall i :: 0 <= i < |s.campaigns| && s.campaigns[i].parent.Some? ==>
          var p := s.campaigns[s.campaigns[i].parent.value]; p.status.Completed? && p.nextRunAt.None?)
    && (forall i, j :: 0 <= i < j < |s.campaigns| && s.campaigns[i].parent.Some? ==>
          s.campaigns[i].parent != s.campaigns[j].parent)
  }

  /** Closed campaigns are fully decided, an item decided REVOKED refers to a final assignment, and a campaign
      reviews no assignment twice. */
  predicate Settled(s: Store)
    requires WellFormed(s)
  {
    && (forall k :: 0 <= k < |s.items| && s.campaigns[s.items[k].campaign].status.Completed? ==>
          !s.items[k].decision.Pending?)
    && (forall k :: 0 <= k < |s.items| && s.items[k].decision.Revoked? ==>
          s.assignments[s.items[k].assignment].status.Final())
    && (forall k, l :: 0 <= k < l < |s.items| && s.items[k].campaign == s.items[l].campaign ==>
          s.items[k].assignment != s.items[l].assignment)
  }

  predicate HasItem(items: seq<Item>, c: CampaignId) {
    exists k :: 0 <= k < |items| && items[k].campaign == c
  }

  predicate HasPending(items: seq<Item>, c: CampaignId) {
    exists k :: 0 <= k < |items| && items[k].campaign == c && items[k].decision.Pending?
  }

  /** An open campaign that reviews anything still has something to decide. */
  predicate Live(s: Store, c: CampaignId) {
    c < |s.campaigns| && s.campaigns[c].status.Active? && HasItem(s.items, c) ==> HasPending(s.items, c)
  }

  predicate Core(s: Store) {
    WellFormed(s) && ReviewerRouted(s) && Chained(s) && Settled(s)
  }

  ghost predicate Inv(s: Store) {
    Core(s) && forall c: CampaignId :: Live(s, c)
  }

  // ----- how rows may change

  /** A row keeps its scope, rules and origin; once closed only its schedule may still move on, and a schedule handed
      over never comes back. */
  predicate RowEvolves(r: Campaign, q: Campaign) {
    && q.scope == r.scope && q.workflow == r.workflow && q.onNoResponse == r.onNoResponse
    && q.parent == r.parent && q.createdAt == r.createdAt
    && (r.status.Completed? ==> q == r.(nextRunAt := q.nextRunAt) && (r.nextRunAt.None? ==> q.nextRunAt.None?))
  }

  /** An item keeps what it reviews, and a decision is never changed. */
  predicate ItemEvolves(x: Item, y: Item) {
    && y == x.(decision := y.decision, decidedBy := y.decidedBy, decidedAt := y.decidedAt)
    && (!x.decision.Pending? ==> y == x)
  }

  predicate Evolves(s: Store, t: Store) {
    && |s.campaigns| <= |t.campaigns| && |s.items| <= |t.items| && |s.assignments| <= |t.assignments|
    && (forall i :: 0 <= i < |s.campaigns| ==> RowEvolves(s.campaigns[i], t.campaigns[i]))
    && (forall k :: 0 <= k < |s.items| ==> ItemEvolves(s.items[k], t.items[k]))
    && (forall k :: |s.items| <= k < |t.items| ==> |s.campaigns| <= t.items[k].campaign)
    && (forall a :: 0 <= a < |s.assignments| && s.assignments[a].status.Final() ==>
          t.assignments[a].status == s.assignments[a].status)
  }

  lemma EvolvesTransitive(s: Store, t: Store, u: Store)
    requires Evolves(s, t) && Evolves(t, u)
    ensures Evolves(s, u)
  {
    forall k | |s.items| <= k < |u.items|
      ensures |s.campaigns| <= u.items[k].campaign
    {
      if k < |t.items| {
        assert ItemEvolves(t.items[k], u.items[k]);
      }
    }
    forall i | 0 <= i < |s.campaigns|
      ensures RowEvolves(s.campaigns[i], u.campaigns[i])
    {
      assert RowEvolves(s.campaigns[i], t.campaigns[i]) && RowEvolves(t.campaigns[i], u.campaigns[i]);
    }
    forall k | 0 <= k < |s.items|
      ensures ItemEvolves(s.items[k], u.items[k])
    {
      assert ItemEvolves(s.items[k], t.items[k]) && ItemEvolves(t.items[k], u.items[k]);
    }
  }

  lemma OneRowEvolves(s: Store, c: CampaignId, row: Campaign)
    requires c < |s.campaigns| && RowEvolves(s.campaigns[c], row)
    ensures Evolves(s, s.(campaigns := s.campaigns[c := row]))
  {
  }

  // ----- creating

  /** A selection holds each id once. */
  predicate Distinct(ids: seq<nat>) {
    forall i, j :: 0 <= i < j < |ids| ==> ids[i] != ids[j]
  }

  lemma {:induction false} SelectBelowDistinct(rows: seq<Assignment>, p: Assignment -> bool, n: nat)
    requires n <= |rows|
    ensures Distinct(SelectBelow(rows, p, n))
  {
    if n > 0 {
      SelectBelowDistinct(rows, p, n - 1);
      SelectBelowInRange(rows, p, n - 1);
    }
  }

  lemma {:induction false} AppendUnseenDistinct(acc: seq<AssignmentId>, more: seq<AssignmentId>)
    requires Distinct(acc)
    ensures Distinct(AppendUnseen(acc, more))
    decreases |more|
  {
    if more != [] {
      AppendUnseenDistinct(if more[0] in acc then acc else acc + [more[0]], more[1..]);
    }
  }

  lemma {:induction false} SelectTargetsDistinct(rows: seq<Assignment>, targets: seq<Target>, acc: seq<AssignmentId>)
    requires Distinct(acc)
    ensures Distinct(SelectTargets(rows, targets, acc))
    decreases |targets|
  {
    if targets != [] {
      var more := Select(rows, a => MatchesTarget(a, targets[0]));
      AppendUnseenDistinct(acc, more);
      SelectTargetsDistinct(rows, targets[1..], AppendUnseen(acc, more));
    }
  }

  lemma MatchingDistinct(s: Store, c: Scope, env: Env)
    requires ValidScope(c)
    ensures Matching(s, c, env).Some? ==> Distinct(Matching(s, c, env).value)
  {
    var rows, n := s.assignments, |s.assignments|;
    SelectBelowDistinct(rows, a => PassesFilter(s.users, c, a), n);
    if c.kind.MultipleResources? {
      SelectTargetsDistinct(rows, c.targets.value, []);
    } else if c.kind.InactiveUsers? && env.inactive(c.inactiveDays.value).Some? {
      var idle := env.inactive(c.inactiveDays.value).value;
      SelectBelowDistinct(rows, a => PassesFilter(s.users, c, a) && a.user in idle, n);
    }
  }

  /** A new campaign is a new chain; its items are all undecided. */
  lemma CreateKeepsInv(s: Store, f: Form, env: Env)
    requires Inv(s) && ValidForm(f) && f.workflow.None?
    ensures var t := TryCreate(s, f, env);
            && (t.Stranded? ==> Inv(t.s) && Evolves(s, t.s))
            && (t.Created? ==> Inv(t.s) && Evolves(s, t.s))
  {
    hide RowShape, PeopleExist, NewRow, PassesFilter, MissingReference;
    var t := TryCreate(s, f, env);
    if t.Stranded? {
      AddingARow(s, t.s);
    } else if t.Created? {
      MatchingDistinct(s, f.scope, env);
      AddingARow(s, t.s);
    }
  }

  lemma AddingARow(s: Store, t: Store)
    requires Inv(s) && WellFormed(t)
    requires |t.campaigns| == |s.campaigns| + 1 && t.campaigns[..|s.campaigns|] == s.campaigns
    requires var r := t.campaigns[|s.campaigns|]; r.workflow.None? && r.parent.None? && r.status.Active?
    requires t.assignments == s.assignments
    requires |s.items| <= |t.items| && t.items[..|s.items|] == s.items
    requires forall k :: |s.items| <= k < |t.items| ==>
               t.items[k].campaign == |s.campaigns| && t.items[k].decision.Pending?
    requires forall k, l :: |s.items| <= k < l < |t.items| ==> t.items[k].assignment != t.items[l].assignment
    ensures Inv(t) && Evolves(s, t)
  {
    hide RowShape, PeopleExist;
    assert forall i :: 0 <= i < |s.campaigns| ==> t.campaigns[i] == s.campaigns[i];
    assert forall k :: 0 <= k < |s.items| ==> t.items[k] == s.items[k];
    forall c: CampaignId
      ensures Live(t, c)
    {
      if c == |s.campaigns| && HasItem(t.items, c) {
        var k :| 0 <= k < |t.items| && t.items[k].campaign == c;
        assert |s.items| <= k;
      } else if c < |s.campaigns| && HasItem(t.items, c) {
        var k :| 0 <= k < |t.items| && t.items[k].campaign == c;
        assert k < |s.items|;
        assert Live(s, c) && HasItem(s.items, c);
        if s.campaigns[c].status.Active? {
          var l :| 0 <= l < |s.items| && s.items[l].campaign == c && s.items[l].decision.Pending?;
          assert t.items[l] == s.items[l];
        }
      }
    }
  }

  predicate Childless(s: Store, c: CampaignId) {
    forall i :: 0 <= i < |s.campaigns| ==> s.campaigns[i].parent != Some(c)
  }

  /** Linking the newest row to a closed campaign that has no child and holds no schedule. */
  lemma LinkKeepsInv(s: Store, child: CampaignId, p: CampaignId)
    requires Inv(s) && p < child && child + 1 == |s.campaigns| && s.campaigns[child].parent.None?
    requires s.campaigns[p].status.Completed? && s.campaigns[p].nextRunAt.None? && Childless(s, p)
    ensures Inv(SetParent(s, child, p))
  {
    hide RowShape, PeopleExist;
    var t := SetParent(s, child, p);
    forall c: CampaignId
      ensures Live(t, c)
    {
      assert Live(s, c);
    }
  }

  // ----- closing

  lemma RevokeKeepsInv(s: Store, a: AssignmentId, env: Env)
    requires Core(s) && a < |s.assignments|
    ensures Core(Revoke(s, a, env).0) && Evolves(s, Revoke(s, a, env).0)
  {
    hide RowShape, PeopleExist;
  }

  predicate PendingIn(items: seq<Item>, c: CampaignId, ids: seq<ItemId>) {
    && Distinct(ids)
    && forall j :: 0 <= j < |ids| ==>
         ids[j] < |items| && items[ids[j]].campaign == c && items[ids[j]].decision.Pending?
  }

  /** An item decided by closing, at that time and by nobody. */
  function ClosedItem(x: Item, keep: NoResponse, now: int): Item {
    x.(decision := if keep.KeepAccess? then Approved else AutoRevoked, decidedAt := Some(now))
  }

  /** Closing items decides exactly those items. */
  lemma {:induction false} CloseItemsDecides(s: Store, c: CampaignId, ids: seq<ItemId>, keep: NoResponse, env: Env)
    requires Core(s) && PendingIn(s.items, c, ids)
    ensures var t := CloseItems(s, ids, keep, env);
            && Core(t) && Evolves(s, t) && t.users == s.users && t.resources == s.resources
            && |t.assignments| == |s.assignments|
            && (forall k :: 0 <= k < |s.items| && k !in ids ==> t.items[k] == s.items[k])
            && (forall k :: k in ids ==> t.items[k] == ClosedItem(s.items[k], keep, env.now))
    decreases |ids|
  {
    hide RowShape, PeopleExist, ClosedItem, Settled, Chained, ReviewerRouted, Evolves, CloseItem;
    if ids == [] {
      EvolvesReflexive(s);
    } else {
      var s1 := CloseItem(s, ids[0], keep, env);
      CloseItemKeepsCore(s, c, ids[0], keep, env);
      assert forall j :: 0 <= j < |ids[1..]| ==> ids[1..][j] == ids[j + 1];
      CloseItemsDecides(s1, c, ids[1..], keep, env);
      EvolvesTransitive(s, s1, CloseItems(s1, ids[1..], keep, env));
      assert forall k :: k in ids <==> k == ids[0] || k in ids[1..];
    }
  }

  /** Deciding one undecided item, taken from a final assignment if the decision is REVOKED. */
  lemma SettleItem(s: Store, k: ItemId, x: Item)
    requires Core(s) && k < |s.items| && s.items[k].decision.Pending? && !x.decision.Pending?
    requires ItemEvolves(s.items[k], x)
    requires x.decision.Revoked? ==> s.assignments[x.assignment].status.Final()
    ensures var t := s.(items := s.items[k := x]); Core(t) && Evolves(s, t)
  {
    hide RowShape, PeopleExist;
  }

  lemma CloseItemKeepsCore(s: Store, c: CampaignId, k: ItemId, keep: NoResponse, env: Env)
    requires Core(s) && k < |s.items| && s.items[k].decision.Pending?
    ensures var t := CloseItem(s, k, keep, env);
            && Core(t) && Evolves(s, t) && t.users == s.users && t.resources == s.resources
            && |t.assignments| == |s.assignments|
            && t.items[k] == ClosedItem(s.items[k], keep, env.now)
            && (forall l :: 0 <= l < |s.items| && l != k ==> t.items[l] == s.items[l])
  {
    hide RowShape, PeopleExist, Settled, Chained, Evolves, ReviewerRouted;
    var t := CloseItem(s, k, keep, env);
    if keep.KeepAccess? {
      SettleItem(s, k, t.items[k]);
    } else {
      var s1 := Revoke(s, s.items[k].assignment, env).0;
      RevokeKeepsInv(s, s.items[k].assignment, env);
      SettleItem(s1, k, t.items[k]);
      EvolvesTransitive(s, s1, t);
    }
  }

  lemma {:induction false} PendingBelowExact(items: seq<Item>, c: CampaignId, n: nat)
    requires n <= |items|
    ensures PendingIn(items, c, PendingBelow(items, c, n))
    ensures forall i, j :: 0 <= i < j < |PendingBelow(items, c, n)| ==>
              PendingBelow(items, c, n)[i] < PendingBelow(items, c, n)[j]
    ensures forall k :: 0 <= k < n && items[k].campaign == c && items[k].decision.Pending?
                        ==> k in PendingBelow(items, c, n)
  {
    if n > 0 {
      PendingBelowExact(items, c, n - 1);
    }
  }

  /** Completing an open campaign without undecided items, and starting the next one where it repeats. */
  lemma FinishKeepsInv(s: Store, c: CampaignId, env: Env)
    requires Core(s) && c < |s.campaigns| && s.campaigns[c].status.Active? && !HasPending(s.items, c)
    requires forall d: CampaignId :: d != c ==> Live(s, d)
    ensures var t := Finish(s, c, env);
            Inv(t) && Evolves(s, t) && Childless(t, c) && t.campaigns[c].status.Completed?
  {
    hide RowShape, PeopleExist;
    var t := Finish(s, c, env);
    OneRowEvolves(s, c, t.campaigns[c]);
    hide Evolves;
    forall k | 0 <= k < |t.items| && t.campaigns[t.items[k].campaign].status.Completed?
      ensures !t.items[k].decision.Pending?
    {
      assert t.items[k].campaign == c && t.items[k].decision.Pending? ==> HasPending(s.items, c);
    }
    forall d: CampaignId
      ensures Live(t, d)
    {
      if d != c {
        assert Live(s, d);
      }
    }
    assert Childless(s, c);
  }

  lemma SpawnKeepsInv(s: Store, c: CampaignId, env: Env)
    requires Inv(s) && c < |s.campaigns| && s.campaigns[c].status.Completed? && Childless(s, c)
    ensures Inv(Spawn(s, c, env)) && Evolves(s, Spawn(s, c, env))
  {
    var row := s.campaigns[c];
    if row.frequencyDays.None? || row.workflow.Some? || RepeatsPastCalendar(row, env.now) {
      EvolvesReflexive(s);
    } else {
      RecurrenceFormValidExactly(row, env.now);
      assert row.nextRunAt.None?;
      SpawnedKeepsInv(s, c, RecurrenceForm(row, env.now), env);
    }
  }

  lemma SpawnedKeepsInv(s: Store, c: CampaignId, f: Form, env: Env)
    requires Inv(s) && c < |s.campaigns| && ValidForm(f) && f.workflow.None?
    requires s.campaigns[c].status.Completed? && s.campaigns[c].nextRunAt.None? && Childless(s, c)
    ensures var t := TryCreate(s, f, env);
            && (t.Refused? ==> Evolves(s, s))
            && (t.Stranded? ==> Inv(t.s) && Evolves(s, t.s))
            && (t.Created? ==> Inv(SetParent(t.s, |s.campaigns|, c)) && Evolves(s, SetParent(t.s, |s.campaigns|, c)))
  {
    hide RowShape, PeopleExist, ValidForm, Settled, Live;
    EvolvesReflexive(s);
    CreateKeepsInv(s, f, env);
    var t := TryCreate(s, f, env);
    if t.Created? {
      assert t.s.campaigns[|s.campaigns|] == NewRow(f, env);
      hide TryCreate, NewRow;
      assert Childless(t.s, c);
      LinkKeepsInv(t.s, |s.campaigns|, c);
    }
  }

  lemma CloseCampaignKeepsInv(s: Store, c: CampaignId, env: Env)
    requires Inv(s) && c < |s.campaigns| && s.campaigns[c].status.Active?
    ensures Inv(CloseCampaign(s, c, env)) && Evolves(s, CloseCampaign(s, c, env))
  {
    hide RowShape, PeopleExist, Spawn, Settled, Chained, ReviewerRouted, PendingBelow, CloseItems;
    var ids := PendingBelow(s.items, c, |s.items|);
    PendingBelowExact(s.items, c, |s.items|);
    var s1 := CloseItems(s, ids, s.campaigns[c].onNoResponse, env);
    CloseItemsDecides(s, c, ids, s.campaigns[c].onNoResponse, env);
    assert !HasPending(s1.items, c);
    forall d: CampaignId | d != c
      ensures Live(s1, d)
    {
      OtherCampaignStaysLive(s, s1, c, d);
    }
    FinishKeepsInv(s1, c, env);
    var s2 := Finish(s1, c, env);
    SpawnKeepsInv(s2, c, env);
    EvolvesTransitive(s, s1, s2);
    EvolvesTransitive(s, s2, Spawn(s2, c, env));
  }

  lemma OtherCampaignStaysLive(s: Store, t: Store, c: CampaignId, d: CampaignId)
    requires Inv(s) && d != c && t.campaigns == s.campaigns && Evolves(s, t) && |t.items| == |s.items|
    requires forall k :: 0 <= k < |s.items| && s.items[k].campaign != c ==> t.items[k] == s.items[k]
    ensures Live(t, d)
  {
    if d < |t.campaigns| && t.campaigns[d].status.Active? && HasItem(t.items, d) {
      var k :| 0 <= k < |t.items| && t.items[k].campaign == d;
      assert ItemEvolves(s.items[k], t.items[k]);
      assert Live(s, d) && HasItem(s.items, d);
      var l :| 0 <= l < |s.items| && s.items[l].campaign == d && s.items[l].decision.Pending?;
      assert t.items[l] == s.items[l];
    }
  }

  // ----- deciding

  /** Counting items finds an undecided one exactly when there is one. */
  lemma {:induction false} CountsTellPending(items: seq<Item>, c: CampaignId)
    ensures Count(items, c, DECIDED) <= Count(items, c, ALL_DECISIONS)
    ensures Count(items, c, DECIDED) == Count(items, c, ALL_DECISIONS) <==> !HasPending(items, c)
  {
    if items != [] {
      var n := |items| - 1;
      CountsTellPending(items[..n], c);
      assert forall k :: 0 <= k < n ==> items[..n][k] == items[k];
      if HasPending(items[..n], c) {
        var k :| 0 <= k < n && items[..n][k].campaign == c && items[..n][k].decision.Pending?;
        assert items[k].campaign == c && items[k].decision.Pending?;
      }
    }
  }

  lemma DecideKeepsInv(s: Store, k: ItemId, verdict: Verdict, actor: Actor, env: Env)
    requires Inv(s)
    ensures Inv(Decide(s, k, verdict, actor, env).s) && Evolves(s, Decide(s, k, verdict, actor, env).s)
  {
    hide RowShape, PeopleExist, Authorize, DecideAs, Chained, Settled, Live, Evolves;
    EvolvesReflexive(s);
    if k < |s.items| && s.items[k].decision.Pending? {
      var decider := Authorize(s.campaigns[s.items[k].campaign], actor, env.now);
      if decider.Success? {
        DecideAsKeepsInv(s, k, verdict, decider.value, env);
      }
    }
  }

  lemma DecideAsKeepsInv(s: Store, k: ItemId, verdict: Verdict, decider: Option<UserId>, env: Env)
    requires Inv(s) && k < |s.items| && s.items[k].decision.Pending?
    ensures Inv(DecideAs(s, k, verdict, decider, env).s) && Evolves(s, DecideAs(s, k, verdict, decider, env).s)
  {
    hide RowShape, PeopleExist, CloseWhenDone, Live, Chained;
    EvolvesReflexive(s);
    var (s1, outcome) := if verdict.TakeAway? then Revoke(s, s.items[k].assignment, env) else (s, Done);
    if !outcome.Failed? {
      var c := s.items[k].campaign;
      RecordedIsCore(s, s1, k, verdict, decider, env);
      var s2 := RecordDecision(s1, k, verdict, decider, env);
      hide Settled, Evolves;
      CloseWhenDoneKeepsInv(s2, c, env);
      EvolvesTransitive(s, s2, CloseWhenDone(s2, c, env));
    }
  }

  /** Between recording a decision and closing the campaign only that campaign may be fully decided and still open. */
  lemma RecordedIsCore(s: Store, s1: Store, k: ItemId, verdict: Verdict, decider: Option<UserId>, env: Env)
    requires Inv(s) && k < |s.items| && s.items[k].decision.Pending?
    requires s1 == if verdict.TakeAway? then Revoke(s, s.items[k].assignment, env).0 else s
    requires verdict.TakeAway? ==> !Revoke(s, s.items[k].assignment, env).1.Failed?
    ensures var t := RecordDecision(s1, k, verdict, decider, env);
            && Core(t) && Evolves(s, t) && t.campaigns[s.items[k].campaign].status.Active?
            && forall d: CampaignId :: d != s.items[k].campaign ==> Live(t, d)
  {
    hide RowShape, PeopleExist, Chained, Live;
    RevokeKeepsInv(s, s.items[k].assignment, env);
    EvolvesReflexive(s);
    RecordKeepsCore(s1, k, verdict, decider, env);
    var t := RecordDecision(s1, k, verdict, decider, env);
    EvolvesTransitive(s, s1, t);
    forall d: CampaignId | d != s.items[k].campaign
      ensures Live(t, d)
    {
      OtherCampaignStaysLive(s, t, s.items[k].campaign, d);
    }
  }

  lemma CloseWhenDoneKeepsInv(s: Store, c: CampaignId, env: Env)
    requires Core(s) && c < |s.campaigns| && s.campaigns[c].status.Active?
    requires forall d: CampaignId :: d != c ==> Live(s, d)
    ensures Inv(CloseWhenDone(s, c, env)) && Evolves(s, CloseWhenDone(s, c, env))
  {
    hide RowShape, PeopleExist, Spawn, Finish, Count, Chained, Settled;
    CountsTellPending(s.items, c);
    EvolvesReflexive(s);
    if !HasPending(s.items, c) {
      FinishKeepsInv(s, c, env);
      SpawnKeepsInv(Finish(s, c, env), c, env);
      EvolvesTransitive(s, Finish(s, c, env), CloseWhenDone(s, c, env));
    }
  }

  lemma RecordKeepsCore(s: Store, k: ItemId, verdict: Verdict, decider: Option<UserId>, env: Env)
    requires Core(s) && k < |s.items| && s.items[k].decision.Pending?
    requires verdict.TakeAway? ==> s.assignments[s.items[k].assignment].status.Final()
    ensures Core(RecordDecision(s, k, verdict, decider, env))
    ensures Evolves(s, RecordDecision(s, k, verdict, decider, env))
  {
    hide RowShape, PeopleExist, Settled, Chained, Evolves, ReviewerRouted;
    SettleItem(s, k, RecordDecision(s, k, verdict, decider, env).items[k]);
  }

  // ----- editing and sweeping

  lemma UpdateKeepsInv(s: Store, c: CampaignId, e: EditForm, env: Env)
    requires Inv(s)
    ensures Inv(Update(s, c, e, env).s) && Evolves(s, Update(s, c, e, env).s)
  {
    hide RowShape, PeopleExist, EditRow, Chained, Settled, Live, Evolves;
    var r := Update(s, c, e, env);
    if r.result.Success? {
      var row := s.campaigns[c];
      EditKeepsShape(row, e, s.users.Keys, env);
      EditKeepsPeople(row, e, s.users.Keys, env);
      ReplacingARow(s, c, EditRow(row, e, s.users.Keys, env).value);
    } else {
      EvolvesReflexive(s);
    }
  }

  lemma ReplacingARow(s: Store, c: CampaignId, row: Campaign)
    requires Inv(s) && c < |s.campaigns| && s.campaigns[c].status.Active?
    requires RowShape(row) && PeopleExist(row, s.users.Keys) && SameIdentity(s.campaigns[c], row)
    ensures var t := s.(campaigns := s.campaigns[c := row]); Inv(t) && Evolves(s, t)
  {
    hide RowShape, PeopleExist;
    var t := s.(campaigns := s.campaigns[c := row]);
    OneRowEvolves(s, c, row);
    hide Evolves;
    forall d: CampaignId
      ensures Live(t, d)
    {
      assert Live(s, d);
    }
  }

  lemma CompleteKeepsInv(s: Store, c: CampaignId, env: Env)
    requires Inv(s)
    ensures Inv(Complete(s, c, env).s) && Evolves(s, Complete(s, c, env).s)
  {
    hide CloseCampaign;
    EvolvesReflexive(s);
    if c < |s.campaigns| && s.campaigns[c].status.Active? {
      CloseCampaignKeepsInv(s, c, env);
    }
  }

  lemma {:induction false} CloseAllKeepsInv(s: Store, ids: seq<CampaignId>, env: Env)
    requires Inv(s)
    ensures Inv(CloseAll(s, ids, env)) && Evolves(s, CloseAll(s, ids, env))
    decreases |ids|
  {
    hide Complete, RowShape, Chained, Settled, Live, Evolves;
    if ids != [] {
      CompleteKeepsInv(s, ids[0], env);
      CloseAllKeepsInv(Complete(s, ids[0], env).s, ids[1..], env);
      EvolvesTransitive(s, Complete(s, ids[0], env).s, CloseAll(s, ids, env));
    } else {
      EvolvesReflexive(s);
    }
  }

  lemma {:induction false} CloseUntilKeepsInv(s: Store, ids: seq<CampaignId>, env: Env)
    requires Inv(s)
    ensures Inv(CloseUntil(s, ids, env).s) && Evolves(s, CloseUntil(s, ids, env).s)
    decreases |ids|
  {
    hide Complete, RowShape, PeopleExist, Chained, Settled, Live, Evolves;
    EvolvesReflexive(s);
    if ids != [] {
      var s1 := Complete(s, ids[0], env).s;
      CompleteKeepsInv(s, ids[0], env);
      CloseUntilKeepsInv(s1, ids[1..], env);
      EvolvesTransitive(s, s1, CloseUntil(s1, ids[1..], env).s);
    }
  }

  lemma EvolvesReflexive(s: Store)
    ensures Evolves(s, s)
  {
  }

  lemma SetNextRunKeepsInv(s: Store, h: CampaignId, at: Option<int>)
    requires Inv(s) && h < |s.campaigns| && s.campaigns[h].scheduleDay.Some?
    requires at.Some? || s.campaigns[h].status.Completed?
    requires s.campaigns[h].nextRunAt.Some?
    ensures Inv(SetNextRun(s, h, at)) && Evolves(s, SetNextRun(s, h, at))
  {
    hide RowShape, PeopleExist;
    var t := SetNextRun(s, h, at);
    OneRowEvolves(s, h, t.campaigns[h]);
    hide Evolves;
    forall d: CampaignId
      ensures Live(t, d)
    {
      assert Live(s, d);
    }
  }

  lemma StartNextKeepsInv(s: Store, h: CampaignId, env: Env)
    requires Inv(s) && h < |s.campaigns| && Due(s.campaigns[h], env.now)
    ensures var t := StartNext(s, h, env); !t.Crashed? ==> Inv(t.s) && Evolves(s, t.s)
  {
    hide RowShape, PeopleExist, NewRow, ValidForm, Following, TryCreate, Chained, Settled, Live, Evolves;
    var row := s.campaigns[h];
    var following := Some(Following(row, env));
    ScheduledFormValidExactly(row, env.now);
    if row.status.Active? {
      SetNextRunKeepsInv(s, h, following);
    } else if !DuePastCalendar(row, env.now) {
      var f := ScheduledForm(row, env.now);
      CreateKeepsInv(s, f, env);
      match TryCreate(s, f, env)
      case Refused(_) => SetNextRunKeepsInv(s, h, following);
      case Stranded(s1) =>
        SetNextRunKeepsInv(s1, h, following);
        EvolvesTransitive(s, s1, SetNextRun(s1, h, following));
      case Created(s1) => StartedKeepsInv(s, h, f, env);
    }
  }

  lemma StartedKeepsInv(s: Store, h: CampaignId, f: Form, env: Env)
    requires Inv(s) && h < |s.campaigns| && s.campaigns[h].nextRunAt.Some? && s.campaigns[h].scheduleDay.Some?
    requires s.campaigns[h].status.Completed? && ValidForm(f) && f.workflow.None?
    requires TryCreate(s, f, env).Created?
    ensures var t := SetNextRun(SetParent(TryCreate(s, f, env).s, |s.campaigns|, h), h, None);
            Inv(t) && Evolves(s, t)
  {
    hide RowShape, PeopleExist, ValidForm, Settled, Live;
    CreateKeepsInv(s, f, env);
    var s1 := TryCreate(s, f, env).s;
    assert s1.campaigns[|s.campaigns|] == NewRow(f, env);
    hide TryCreate, NewRow;
    SetNextRunKeepsInv(s1, h, None);
    var s2 := SetNextRun(s1, h, None);
    EvolvesTransitive(s, s1, s2);
    assert Childless(s2, h);
    LinkKeepsInv(s2, |s.campaigns|, h);
    var t := SetNextRun(SetParent(s1, |s.campaigns|, h), h, None);
    assert t.campaigns == SetParent(s2, |s.campaigns|, h).campaigns;
  }

  predicate AllDue(s: Store, ids: seq<CampaignId>, now: int) {
    forall j :: 0 <= j < |ids| ==> ids[j] < |s.campaigns| && Due(s.campaigns[ids[j]], now)
  }

  lemma {:induction false} StartAllKeepsInv(s: Store, ids: seq<CampaignId>, env: Env)
    requires Inv(s) && Distinct(ids) && AllDue(s, ids, env.now)
    ensures var r := StartAll(s, ids, env); Inv(r.s) && Evolves(s, r.s)
    decreases |ids|
  {
    hide RowShape, PeopleExist, Chained, Settled, Live, Evolves;
    EvolvesReflexive(s);
    if ids != [] && !StartNext(s, ids[0], env).Crashed? {
      StartNextKeepsInv(s, ids[0], env);
      var s1 := StartNext(s, ids[0], env).s;
      StartNextLeavesOthers(s, ids[0], env);
      hide StartNext;
      StartAllKeepsInv(s1, ids[1..], env);
      EvolvesTransitive(s, s1, StartAll(s1, ids[1..], env).s);
    }
  }

  /** Serving one holder leaves every other row as it is. */
  lemma StartNextLeavesOthers(s: Store, h: CampaignId, env: Env)
    requires WellFormed(s) && h < |s.campaigns| && s.campaigns[h].scheduleDay.Some?
    ensures var t := StartNext(s, h, env);
            !t.Crashed? ==>
              && |s.campaigns| <= |t.s.campaigns|
              && forall i :: 0 <= i < |s.campaigns| && i != h ==> t.s.campaigns[i] == s.campaigns[i]
  {
    hide RowShape, PeopleExist, NewRow, ValidForm, Following;
  }
}
