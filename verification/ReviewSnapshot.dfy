/** The roster of a campaign: exactly the assignments its scope describes, each once. */
module ReviewSnapshot {
  import opened Wrappers
  import opened Schedule
  import opened ReviewRows
  import opened ReviewModel
  import opened ReviewInvariant

  /** An assignment of a target: granted through that package, through that business role, or directly on it. */
  predicate IsOn(a: Assignment, t: Target) {
    if t.kind.PACKAGE? then a.package == Some(t.id)
    else if t.kind.BUSINESS_ROLE? then a.businessRole == Some(t.id)
    else a.resource.kind == t.kind && a.resource.id == t.id
  }

  /** An assignment of a kind of resource, packages and business roles again by what it came from. */
  predicate IsOfKind(a: Assignment, kind: ResourceType) {
    if kind.PACKAGE? then a.package.Some?
    else if kind.BUSINESS_ROLE? then a.businessRole.Some?
    else a.resource.kind == kind
  }

  /** The user's own account, or a privileged or test account linked to it. */
  predicate IsAccountOf(users: map<UserId, User>, account: UserId, owner: UserId) {
    || account == owner
    || (&& account in users && users[account].linkedTo == Some(owner)
        && (users[account].accountType.PU? || users[account].accountType.TU?))
  }

  /** What a scope asks for, said without any query: live access, of this much of the system. */
  predicate InScope(s: Store, c: Scope, env: Env, a: Assignment)
    requires ValidScope(c)
  {
    && (a.status.Eligible? || a.status.InForce?)
    && match c.kind
       case All => true
       case OfResourceType => IsOfKind(a, c.resourceType.value)
       case SpecificResource => IsOn(a, Target(c.resourceType.value, c.resourceId.value))
       case MultipleResources => exists t :: t in c.targets.value && IsOn(a, t)
       case OneUser => a.user == c.user.value
       case OfAccountType => a.user in s.users && s.users[a.user].accountType == c.accountType.value
       case InactiveUsers => env.inactive(c.inactiveDays.value).Some?
                             && a.user in env.inactive(c.inactiveDays.value).value
       case Mover => IsAccountOf(s.users, a.user, c.user.value) && !a.byPolicy && !a.byMapping
  }

  lemma MatchesExactly(a: Assignment, t: Target)
    ensures MatchesTarget(a, t) <==> a.status.Live() && IsOn(a, t)
  {
  }

  /** The database filter and the scope agree, where the filter is all there is. */
  lemma FilterMeansInScope(s: Store, c: Scope, env: Env, a: Assignment)
    requires ValidScope(c) && !c.kind.MultipleResources? && !c.kind.InactiveUsers?
    ensures PassesFilter(s.users, c, a) <==> InScope(s, c, env, a)
  {
    if a.user in s.users {
      assert s.users[a.user].accountType != NORMAL
             <==> s.users[a.user].accountType.PU? || s.users[a.user].accountType.TU?;
    }
  }

  /** The snapshot of a scope cannot be taken: it asks for inactive users, somebody holds live access, and the
      directory cannot tell who is inactive. */
  predicate CannotTell(s: Store, c: Scope, env: Env) {
    && c.kind.InactiveUsers? && c.inactiveDays.Some? && env.inactive(c.inactiveDays.value).None?
    && exists a :: 0 <= a < |s.assignments| && s.assignments[a].status.Live()
  }

  lemma {:induction false} SelectBelowExact(rows: seq<Assignment>, p: Assignment -> bool, n: nat, a: AssignmentId)
    requires n <= |rows|
    ensures a in SelectBelow(rows, p, n) <==> a < n && p(rows[a])
  {
    if n > 0 {
      SelectBelowExact(rows, p, n - 1, a);
    }
  }

  lemma {:induction false} AppendUnseenExact(acc: seq<AssignmentId>, more: seq<AssignmentId>, a: AssignmentId)
    ensures a in AppendUnseen(acc, more) <==> a in acc || a in more
    decreases |more|
  {
    if more != [] {
      AppendUnseenExact(if more[0] in acc then acc else acc + [more[0]], more[1..], a);
      assert a in more <==> a == more[0] || a in more[1..];
    }
  }

  /** Several targets select the union of what each selects. */
  lemma {:induction false} SelectTargetsExact(rows: seq<Assignment>, targets: seq<Target>, acc: seq<AssignmentId>,
                                              a: AssignmentId)
    ensures a in SelectTargets(rows, targets, acc)
            <==> a in acc || (a < |rows| && exists t :: t in targets && MatchesTarget(rows[a], t))
    decreases |targets|
  {
    if targets != [] {
      var p := x => MatchesTarget(x, targets[0]);
      var acc1 := AppendUnseen(acc, Select(rows, p));
      SelectTargetsExact(rows, targets[1..], acc1, a);
      AppendUnseenExact(acc, Select(rows, p), a);
      SelectBelowExact(rows, p, |rows|, a);
      assert forall t :: t in targets <==> t == targets[0] || t in targets[1..];
    }
  }

  /** A scope selects exactly the live assignments in it, each once. It selects nothing but an error exactly when
      inactive users are asked for, someone holds live access, and the directory cannot tell. */
  lemma MatchingExact(s: Store, c: Scope, env: Env)
    requires ValidScope(c)
    ensures Matching(s, c, env).None? <==> CannotTell(s, c, env)
    ensures var m := Matching(s, c, env); m.Some? ==> Distinct(m.value)
    ensures var m := Matching(s, c, env);
            m.Some? ==> forall a: AssignmentId ::
              a in m.value <==> a < |s.assignments| && InScope(s, c, env, s.assignments[a])
  {
    hide PassesFilter;
    MatchingDistinct(s, c, env);
    var m := Matching(s, c, env);
    var rows, n := s.assignments, |s.assignments|;
    var p := a => PassesFilter(s.users, c, a);
    if c.kind.InactiveUsers? {
      InactiveFilterIsLive(s, c);
      forall a: AssignmentId
        ensures a in Select(rows, p) <==> a < n && rows[a].status.Live()
      {
        SelectBelowExact(rows, p, n, a);
      }
      assert Select(rows, p) != [] ==> Select(rows, p)[0] in Select(rows, p);
    }
    if m.Some? {
      forall a: AssignmentId
        ensures a in m.value <==> a < n && InScope(s, c, env, rows[a])
      {
        if c.kind.MultipleResources? {
          SelectTargetsExact(rows, c.targets.value, [], a);
          if a < n {
            forall t: Target
              ensures MatchesTarget(rows[a], t) <==> rows[a].status.Live() && IsOn(rows[a], t)
            {
              MatchesExactly(rows[a], t);
            }
          }
        } else if c.kind.InactiveUsers? && env.inactive(c.inactiveDays.value).Some? {
          var idle := env.inactive(c.inactiveDays.value).value;
          SelectBelowExact(rows, x => PassesFilter(s.users, c, x) && x.user in idle, n, a);
        } else {
          SelectBelowExact(rows, p, n, a);
          if a < n && !c.kind.InactiveUsers? {
            FilterMeansInScope(s, c, env, rows[a]);
          }
        }
      }
    }
  }

  lemma InactiveFilterIsLive(s: Store, c: Scope)
    requires ValidScope(c) && c.kind.InactiveUsers?
    ensures forall a :: PassesFilter(s.users, c, a) <==> a.status.Live()
  {
  }

  /** An undecided item with a copy of its assignment. */
  predicate CopiesAssignment(x: Item, a: Assignment) {
    && x.user == a.user && x.resource == a.resource && x.statusAtSnapshot == a.status
    && x.decision.Pending? && x.decidedBy.None? && x.decidedAt.None?
  }

  /** The items of campaign c review every assignment that a scope has in store s exactly once, and nothing else: they
      are in bijection with the assignments in scope, and each carries a copy of its assignment. */
  predicate ReviewsExactly(items: seq<Item>, c: CampaignId, s: Store, scope: Scope, env: Env)
    requires ValidScope(scope)
  {
    && (forall k :: 0 <= k < |items| && items[k].campaign == c ==>
          && items[k].assignment < |s.assignments| && InScope(s, scope, env, s.assignments[items[k].assignment])
          && CopiesAssignment(items[k], s.assignments[items[k].assignment]))
    && (forall k, l :: 0 <= k < l < |items| && items[k].campaign == c && items[l].campaign == c ==>
          items[k].assignment != items[l].assignment)
    && (forall a :: 0 <= a < |s.assignments| && InScope(s, scope, env, s.assignments[a]) ==> IsReviewed(items, c, a))
  }

  predicate IsReviewed(items: seq<Item>, c: CampaignId, a: AssignmentId) {
    exists k :: 0 <= k < |items| && items[k].campaign == c && items[k].assignment == a
  }

  /** The items added from s to t are the exact roster of campaign c. */
  predicate RosterIsExact(s: Store, t: Store, c: CampaignId, scope: Scope, env: Env)
    requires ValidScope(scope)
  {
    && s.items <= t.items && (forall k :: |s.items| <= k < |t.items| ==> t.items[k].campaign == c)
    && ReviewsExactly(t.items, c, s, scope, env)
  }

  /** A roster depends on nothing but assignments and users. */
  lemma SameAccessSameRoster(items: seq<Item>, c: CampaignId, s: Store, t: Store, scope: Scope, env: Env)
    requires ValidScope(scope) && t.assignments == s.assignments && t.users == s.users
    ensures ReviewsExactly(items, c, s, scope, env) <==> ReviewsExactly(items, c, t, scope, env)
  {
    hide ValidScope;
    forall a: Assignment
      ensures InScope(s, scope, env, a) <==> InScope(t, scope, env, a)
    {
    }
    hide InScope, IsReviewed;
  }

  /** Nothing was added to, taken from or decided in campaign d. */
  predicate SameItemsOf(items: seq<Item>, later: seq<Item>, d: CampaignId) {
    && |items| <= |later|
    && (forall k :: 0 <= k < |items| ==> later[k].campaign == items[k].campaign)
    && (forall k :: 0 <= k < |items| && items[k].campaign == d ==> later[k] == items[k])
    && (forall k :: |items| <= k < |later| ==> later[k].campaign != d)
  }

  lemma SameItemsSameRoster(items: seq<Item>, later: seq<Item>, d: CampaignId, s: Store, scope: Scope, env: Env)
    requires ValidScope(scope) && ReviewsExactly(items, d, s, scope, env) && SameItemsOf(items, later, d)
    ensures ReviewsExactly(later, d, s, scope, env)
  {
    hide ValidScope, InScope, CopiesAssignment;
    forall a | 0 <= a < |s.assignments| && InScope(s, scope, env, s.assignments[a])
      ensures IsReviewed(later, d, a)
    {
      assert IsReviewed(items, d, a);
      var k :| 0 <= k < |items| && items[k].campaign == d && items[k].assignment == a;
      assert later[k] == items[k];
    }
  }

  /** A created campaign reviews exactly what is in its scope. */
  lemma SnapshotIsExact(s: Store, f: Form, env: Env)
    requires WellFormed(s) && ValidForm(f) && f.workflow.None? && TryCreate(s, f, env).Created?
    ensures RosterIsExact(s, TryCreate(s, f, env).s, |s.campaigns|, f.scope, env)
  {
    hide RowShape, PeopleExist, NewRow, InScope, Matching, MissingReference, PassesFilter;
    MatchingExact(s, f.scope, env);
    MatchingInRange(s, f.scope, env);
    var ids := Matching(s, f.scope, env).value;
    var t := TryCreate(s, f, env).s;
    var c := |s.campaigns|;
    forall k | |s.items| <= k < |t.items|
      ensures t.items[k] == NewItem(s, c, ids[k - |s.items|]) && ids[k - |s.items|] in ids
    {
    }
    assert forall k :: 0 <= k < |s.items| ==> t.items[k].campaign < c;
    forall a | 0 <= a < |s.assignments| && InScope(s, f.scope, env, s.assignments[a])
      ensures IsReviewed(t.items, c, a)
    {
      assert a in ids;
      var j :| 0 <= j < |ids| && ids[j] == a;
      assert t.items[|s.items| + j].assignment == a && t.items[|s.items| + j].campaign == c;
    }
  }

  /** The look-ups of a request pass exactly when the people of the campaign it would store and the resources of its
      scope exist, and otherwise miss somebody or else a resource. */
  lemma NothingMissingExactly(s: Store, f: ReviewerForm, env: Env)
    ensures MissingReference(s, f) == if !PeopleExist(NewRow(f, env), s.users.Keys) then Some(UserNotFound)
                                      else if !ResourcesExist(s, f.scope) then Some(ResourceNotFound)
                                      else None
  {
    hide NextRun;
  }

  /** Creating by hand succeeds exactly when the people and resources the request names exist and the directory can
      tell what the scope asks for. Then one open campaign is added, which reviews what is in its scope; otherwise
      nothing changes, and this is the error. */
  lemma CreateByHandExactly(s: Store, f: ReviewerForm, env: Env)
    requires WellFormed(s)
    ensures var r := Create(s, f, env);
            && (r.result.Success? <==>
                  && PeopleExist(NewRow(f, env), s.users.Keys) && ResourcesExist(s, f.scope)
                  && !CannotTell(s, f.scope, env))
            && (r.result.Failure? ==>
                  && r.s == s
                  && r.result.error == if !PeopleExist(NewRow(f, env), s.users.Keys) then UserNotFound
                                       else if !ResourcesExist(s, f.scope) then ResourceNotFound
                                       else InactiveCheckUnavailable)
            && (r.result.Success? ==>
                  && r.result.value == |s.campaigns| && r.s.campaigns == s.campaigns + [NewRow(f, env)]
                  && RosterIsExact(s, r.s, |s.campaigns|, f.scope, env)
                  && r.s == s.(campaigns := r.s.campaigns, items := r.s.items))
  {
    hide RowShape, NewRow, Matching, MissingReference, InScope, RosterIsExact;
    NothingMissingExactly(s, f, env);
    MatchingExact(s, f.scope, env);
    if TryCreate(s, f, env).Created? {
      SnapshotIsExact(s, f, env);
    }
  }
}
