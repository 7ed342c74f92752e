/** Whole runs of ensuring, enabling and disabling accounts, with any directory failing at any call. */
module AccountRuns {
  import opened Wrappers
  import opened MockDirectory
  import opened AccountModel
  import opened AccountAgreement

  datatype Step =
    | EnsurePrimaryStep(person: PersonId)
    | EnsureStep(person: PersonId, provider: ProviderId, name: string, fails: bool)
    | SetAccountStep(account: AccountId, enabled: bool, fails: bool)
    | SetPersonStep(person: PersonId, enabled: bool, actor: Option<PersonId>, force: bool, skip: set<ProviderId>,
                    failing: set<AccountId>)

  function Apply(h: Hub, step: Step): (k: Hub)
    requires WellFormed(h)
    ensures WellFormed(k)
  {
    match step
    case EnsurePrimaryStep(u) => if u < |h.persons| then EnsurePrimary(h, u).0 else h
    case EnsureStep(u, p, name, fails) => if u < |h.persons| then EnsureIn(h, u, p, name, fails).0 else h
    case SetAccountStep(a, enabled, fails) => SetAccount(h, a, enabled, fails).0
    case SetPersonStep(u, enabled, actor, force, skip, failing) =>
      SetPerson(h, u, enabled, actor, force, skip, failing).0
  }

  function Run(h: Hub, steps: seq<Step>): (k: Hub)
    requires WellFormed(h)
    ensures WellFormed(k)
    decreases |steps|
  {
    if steps == [] then h else Run(Apply(h, steps[0]), steps[1..])
  }

  lemma GrowsReflexive(h: Hub)
    ensures Grows(h, h)
  {
  }

  lemma {:induction false} SwitchAllAgrees(h: Hub, snapshot: seq<(AccountId, Standing)>, enabled: bool, force: bool,
                                           failing: set<AccountId>)
    requires Agreement(h) && forall j :: 0 <= j < |snapshot| ==> snapshot[j].0 < |h.accounts|
    ensures var k := SwitchAll(h, snapshot, enabled, force, failing).0; Agreement(k) && Grows(h, k)
    decreases |snapshot|
  {
    hide Switch, AccountsAgree, PersonsAgree, Unique, DenseDirectories, Grows;
    if snapshot == [] {
      GrowsReflexive(h);
    } else {
      var head := snapshot[0];
      var h1 := if head.1 == StandingOf(enabled) && !force then h else Switch(h, head.0, enabled, head.0 in failing).0;
      SwitchAgrees(h, head.0, enabled, head.0 in failing);
      GrowsReflexive(h);
      SwitchAllAgrees(h1, snapshot[1..], enabled, force, failing);
      GrowsTransitive(h, h1, SwitchAll(h1, snapshot[1..], enabled, force, failing).0);
    }
  }

  lemma SetPersonAgrees(h: Hub, u: PersonId, enabled: bool, actor: Option<PersonId>, force: bool, skip: set<ProviderId>,
                        failing: set<AccountId>)
    requires Agreement(h)
    ensures var k := SetPerson(h, u, enabled, actor, force, skip, failing).0; Agreement(k) && Grows(h, k)
  {
    hide SwitchAll, EnsurePrimary, AccountsAgree, PersonsAgree, Unique, DenseDirectories, Grows;
    GrowsReflexive(h);
    if u < |h.persons| {
      EnsurePrimaryAgrees(h, u);
      var h1 := EnsurePrimary(h, u).0;
      SwitchAllAgrees(h1, SnapshotBelow(h1, u, skip, |h1.accounts|), enabled, force, failing);
      GrowsTransitive(h, h1, SwitchAll(h1, SnapshotBelow(h1, u, skip, |h1.accounts|), enabled, force, failing).0);
    }
  }

  lemma StepKeepsAgreement(h: Hub, step: Step)
    requires Agreement(h)
    ensures Agreement(Apply(h, step)) && Grows(h, Apply(h, step))
  {
    hide Switch, SetPerson, EnsureIn, EnsurePrimary, AccountsAgree, PersonsAgree, Unique, DenseDirectories, Grows;
    GrowsReflexive(h);
    match step
    case EnsurePrimaryStep(u) =>
      if u < |h.persons| {
        EnsurePrimaryAgrees(h, u);
      }
    case EnsureStep(u, p, name, fails) =>
      if u < |h.persons| {
        EnsureInAgrees(h, u, p, name, fails);
      }
    case SetAccountStep(a, enabled, fails) =>
      if a < |h.accounts| {
        SwitchAgrees(h, a, enabled, fails);
      }
    case SetPersonStep(u, enabled, actor, force, skip, failing) =>
      SetPersonAgrees(h, u, enabled, actor, force, skip, failing);
  }

  /** The mirror never drifts: over every run the account table shows what the directories show, (provider, external
      id) stays unique, and no account changes hands. */
  lemma {:induction false} RunKeepsAgreement(h: Hub, steps: seq<Step>)
    requires Agreement(h)
    ensures Agreement(Run(h, steps)) && Grows(h, Run(h, steps))
    decreases |steps|
  {
    hide Apply, AccountsAgree, PersonsAgree, Unique, DenseDirectories, Grows;
    if steps == [] {
      GrowsReflexive(h);
    } else {
      StepKeepsAgreement(h, steps[0]);
      RunKeepsAgreement(Apply(h, steps[0]), steps[1..]);
      GrowsTransitive(h, Apply(h, steps[0]), Run(Apply(h, steps[0]), steps[1..]));
    }
  }

  /** A person row as a sync writes it: one of the users of its directory. */
  predicate Imported(h: Hub, x: Person) {
    x.provider in h.directories && exists i :: 0 <= i < |h.directories[x.provider]| && ImportedAs(h, x, i)
  }

  predicate ImportedAs(h: Hub, x: Person, i: nat)
    requires x.provider in h.directories && i < |h.directories[x.provider]|
  {
    var user := h.directories[x.provider][i];
    x.externalId == user.externalId && x.status == user.status
  }

  /** Where runs start: no accounts yet, directories as the connectors leave them, and persons synced from them. The
      table of persons has a unique key over provider and external id. */
  predicate FreshlySynced(h: Hub) {
    && WellFormed(h) && h.accounts == []
    && (forall p :: p in h.directories ==> Kept(h.directories[p]))
    && (forall u :: 0 <= u < |h.persons| && Connected(h, h.persons[u].provider) ==> Imported(h, h.persons[u]))
    && (forall u, v :: 0 <= u < v < |h.persons| ==>
          h.persons[u].provider != h.persons[v].provider || h.persons[u].externalId != h.persons[v].externalId)
  }

  ghost predicate Reachable(h: Hub) {
    exists start: Hub, steps: seq<Step> :: FreshlySynced(start) && h == Run(start, steps)
  }

  /** A synced person is the only user of that id in the directory, and has that user's status. */
  lemma ImportedShows(h: Hub, x: Person)
    requires Connected(h, x.provider) && Kept(h.directories[x.provider]) && Imported(h, x)
    ensures Shows(h, x.provider, x.externalId, Mirrored(x.status))
  {
    var users := h.directories[x.provider];
    var i :| 0 <= i < |users| && ImportedAs(h, x, i);
    var found := Find(users, x.externalId);
    IdsAreInjective(i + 1, found.value + 1);
    hide UserIdText;
  }

  /** In every hub reached from synced persons by ensuring, enabling and disabling accounts, with any calls failing,
      the account table and the directories agree. */
  lemma ReachableHubsAgree(h: Hub)
    requires Reachable(h)
    ensures Agreement(h)
  {
    var start: Hub, steps: seq<Step> :| FreshlySynced(start) && h == Run(start, steps);
    hide Run, UserIdText, Shows, Imported;
    forall u | 0 <= u < |start.persons| && Connected(start, start.persons[u].provider)
      ensures Shows(start, start.persons[u].provider, start.persons[u].externalId, Mirrored(start.persons[u].status))
    {
      ImportedShows(start, start.persons[u]);
    }
    RunKeepsAgreement(start, steps);
  }

  // ----- set_person_enabled

  /** Enabling or disabling a person is a map over the unskipped accounts: one result each, in order; an account whose
      directory goes along ends at the target status, every other account keeps its status, and no failure affects
      another account. The person's own status follows the primary account. */
  lemma SetPersonIsPerAccount(h: Hub, u: PersonId, enabled: bool, actor: Option<PersonId>, force: bool,
                              skip: set<ProviderId>, failing: set<AccountId>)
    requires Agreement(h) && u < |h.persons| && (enabled || actor != Some(u))
    ensures var h1 := EnsurePrimary(h, u).0;
            var snapshot := SnapshotBelow(h1, u, skip, |h1.accounts|);
            var (k, r) := SetPerson(h, u, enabled, actor, force, skip, failing);
            && InTable(h1, snapshot) && r.Success?
            && PerAccount(h1, k, snapshot, r.value, enabled, force, failing)
  {
    var h1 := EnsurePrimary(h, u).0;
    var snapshot := SnapshotBelow(h1, u, skip, |h1.accounts|);
    EnsurePrimaryAgrees(h, u);
    hide EnsurePrimary, SwitchAll, SnapshotBelow, AccountsAgree, PersonsAgree, Unique, DenseDirectories;
    SwitchAllIsPerAccount(h1, snapshot, enabled, force, failing);
  }

  /** An account reported ok is at the target status in the table and in its directory; a failed one is where it
      was. */
  predicate TellsTheTruth(k: Hub, entry: (AccountId, Standing), result: ActionResult, enabled: bool)
    requires entry.0 < |k.accounts|
  {
    var row := k.accounts[entry.0];
    if result.ok
    then row.status == StandingOf(enabled) && Shows(k, row.provider, row.externalId, StandingOf(enabled))
    else row.status == entry.1 && (entry.1 != DELETED ==> Shows(k, row.provider, row.externalId, entry.1))
  }

  lemma PerAccountTellsTheTruth(h: Hub, k: Hub, snapshot: seq<(AccountId, Standing)>, results: seq<ActionResult>,
                                enabled: bool, force: bool, failing: set<AccountId>, j: nat)
    requires InTable(h, snapshot) && AccountsAgree(k) && j < |snapshot|
    requires forall i :: 0 <= i < |snapshot| ==> snapshot[i].1 == h.accounts[snapshot[i].0].status
    requires PerAccount(h, k, snapshot, results, enabled, force, failing)
    ensures TellsTheTruth(k, snapshot[j], results[j], enabled)
  {
    hide Reaches, Shows, Present, PrimaryToggled;
    var a := snapshot[j].0;
    assert results[j] == ResultFor(h, snapshot[j], enabled, force, failing);
    if ToggledIn(h, snapshot, a, enabled, force, failing) {
      var i :| 0 <= i < |snapshot| && snapshot[i].0 == a && Toggles(h, snapshot[i], enabled, force, failing);
      assert i == j;
    }
  }

  predicate AllTellTheTruth(k: Hub, snapshot: seq<(AccountId, Standing)>, results: seq<ActionResult>, enabled: bool) {
    && |results| == |snapshot|
    && forall j :: 0 <= j < |snapshot| ==>
         snapshot[j].0 < |k.accounts| && TellsTheTruth(k, snapshot[j], results[j], enabled)
  }

  lemma PerAccountAllTellTheTruth(h: Hub, k: Hub, snapshot: seq<(AccountId, Standing)>, results: seq<ActionResult>,
                                  enabled: bool, force: bool, failing: set<AccountId>)
    requires InTable(h, snapshot) && AccountsAgree(k)
    requires forall i :: 0 <= i < |snapshot| ==> snapshot[i].1 == h.accounts[snapshot[i].0].status
    requires PerAccount(h, k, snapshot, results, enabled, force, failing)
    ensures AllTellTheTruth(k, snapshot, results, enabled)
  {
    hide TellsTheTruth, AccountsAgree;
    forall j | 0 <= j < |snapshot|
      ensures TellsTheTruth(k, snapshot[j], results[j], enabled)
    {
      PerAccountTellsTheTruth(h, k, snapshot, results, enabled, force, failing, j);
    }
  }

  /** Every result of enabling or disabling a person tells the truth about the directory, so an account skipped as
      already in the target state really is. */
  lemma ResultsTellTheTruth(h: Hub, u: PersonId, enabled: bool, actor: Option<PersonId>, force: bool,
                            skip: set<ProviderId>, failing: set<AccountId>)
    requires Agreement(h) && u < |h.persons| && (enabled || actor != Some(u))
    ensures var h1 := EnsurePrimary(h, u).0;
            var (k, r) := SetPerson(h, u, enabled, actor, force, skip, failing);
            r.Success? && AllTellTheTruth(k, SnapshotBelow(h1, u, skip, |h1.accounts|), r.value, enabled)
  {
    var h1 := EnsurePrimary(h, u).0;
    var snapshot := SnapshotBelow(h1, u, skip, |h1.accounts|);
    SetPersonIsPerAccount(h, u, enabled, actor, force, skip, failing);
    hide EnsurePrimary, SetPerson, SnapshotBelow, PersonsAgree, Unique, DenseDirectories, AccountsAgree;
    hide PerAccount, InTable, AllTellTheTruth;
    SetPersonAgrees(h, u, enabled, actor, force, skip, failing);
    var (k, r) := SetPerson(h, u, enabled, actor, force, skip, failing);
    PerAccountAllTellTheTruth(h1, k, snapshot, r.value, enabled, force, failing);
  }

  /** Switching one account succeeds exactly when it exists, its directory is a real one that knows it, and the call
      does not fail. Then the directory shows the status asked for, the row has it, and so has the person if it is the
      person's own account; nothing else changes in the tables or shows in a directory. Otherwise nothing changes at
      all, and this is the error. */
  lemma SetAccountExactly(h: Hub, a: AccountId, enabled: bool, fails: bool)
    requires WellFormed(h)
    ensures var (k, r) := SetAccount(h, a, enabled, fails); var status := if enabled then ACTIVE else DISABLED;
            && (r.Success? <==>
                  a < |h.accounts| && !fails && Present(h, h.accounts[a].provider, h.accounts[a].externalId))
            && (r.Failure? ==>
                  && k == h
                  && r.error == if a >= |h.accounts| then AccountNotFound
                                else if !Connected(h, h.accounts[a].provider) then ProviderNotFound
                                else DirectoryFailed)
            && (r.Success? ==>
                  var row := h.accounts[a];
                  && k.accounts == h.accounts[a := row.(status := status)]
                  && Shows(k, row.provider, row.externalId, status)
                  && (forall p: ProviderId, id: string, any: Standing | p != row.provider || id != row.externalId ::
                        Shows(k, p, id, any) <==> Shows(h, p, id, any))
                  && |k.persons| == |h.persons|
                  && (forall v :: 0 <= v < |h.persons| ==>
                        k.persons[v] == if v == row.user && IsPrimary(h.persons[v], row)
                                        then h.persons[v].(status := status) else h.persons[v]))
  {
    hide Switch, Find, Shows;
    if SetAccount(h, a, enabled, fails).1.Success? {
      SwitchShows(h, a, enabled, fails);
      SwitchRows(h, a, enabled, fails);
    }
  }

  /** Enabling or disabling a person is refused exactly for nobody and for disabling oneself, and then changes
      nothing. */
  lemma SetPersonRefusedExactly(h: Hub, u: PersonId, enabled: bool, actor: Option<PersonId>, force: bool,
                                skip: set<ProviderId>, failing: set<AccountId>)
    requires WellFormed(h)
    ensures var (k, r) := SetPerson(h, u, enabled, actor, force, skip, failing);
            && (r.Success? <==> u < |h.persons| && (enabled || actor != Some(u)))
            && (r.Failure? ==> k == h && r.error == if u >= |h.persons| then UserNotFound else ValidationError)
  {
    hide EnsurePrimary, SwitchAll, SnapshotBelow;
  }

  /** The loop switches the person's own account: its directory is not skipped, it is not in the target state already
      unless forced, and its directory goes along. */
  predicate SwitchesPrimary(h: Hub, a: AccountId, enabled: bool, force: bool, skip: set<ProviderId>,
                            failing: set<AccountId>)
    requires a < |h.accounts|
  {
    h.accounts[a].provider !in skip && Toggles(h, (a, h.accounts[a].status), enabled, force, failing)
  }

  /** When the person's own status and that of the primary account are the same afterwards, exactly: the account was
      switched, or they were the same once the account had been mirrored. That is so for a person who was active or
      disabled, unless the account had been deleted, and then for a person who was deleted. */
  lemma PersonFollowsPrimaryExactly(h: Hub, u: PersonId, enabled: bool, actor: Option<PersonId>, force: bool,
                                    skip: set<ProviderId>, failing: set<AccountId>)
    requires Agreement(h) && u < |h.persons| && (enabled || actor != Some(u))
    requires Connected(h, h.persons[u].provider)
    ensures var (h1, primary) := EnsurePrimary(h, u); var was := h.persons[u].status;
            var k := SetPerson(h, u, enabled, actor, force, skip, failing).0;
            && primary.Some? && primary.value < |h1.accounts| == |k.accounts| && u < |k.persons|
            && (k.persons[u].status == k.accounts[primary.value].status
                <==> || SwitchesPrimary(h1, primary.value, enabled, force, skip, failing)
                     || (if h1.accounts[primary.value].status == DELETED then was == DELETED
                         else was == ACTIVE || was == DISABLED))
  {
    var (h1, primary) := EnsurePrimary(h, u);
    EnsurePrimaryAgrees(h, u);
    SetPersonIsPerAccount(h, u, enabled, actor, force, skip, failing);
    PrimaryRowMirrors(h, u);
    var snapshot := SnapshotBelow(h1, u, skip, |h1.accounts|);
    PrimaryInSnapshot(h1, u, skip, primary.value, enabled, force, failing);
    hide EnsurePrimary, SetPerson, SnapshotBelow, Toggles, PersonsAgree, DenseDirectories, AccountsAgree;
    PrimaryMovesWithPerson(h1, snapshot, u, primary.value, enabled, force, failing);
  }

  /** Nobody of a connected directory, and no account, is in any state but active or disabled. */
  predicate KnownStatuses(h: Hub) {
    && (forall a :: 0 <= a < |h.accounts| ==> Known(h.accounts[a].status))
    && (forall u :: 0 <= u < |h.persons| && Connected(h, h.persons[u].provider) ==> Known(h.persons[u].status))
  }

  predicate Known(status: Standing) { status == ACTIVE || status == DISABLED }

  lemma EnsurePrimaryKeepsKnown(h: Hub, u: PersonId)
    requires WellFormed(h) && KnownStatuses(h) && u < |h.persons|
    ensures KnownStatuses(EnsurePrimary(h, u).0)
  {
  }

  lemma SwitchKeepsKnown(h: Hub, a: AccountId, enabled: bool, fails: bool)
    requires WellFormed(h) && KnownStatuses(h) && a < |h.accounts|
    ensures KnownStatuses(Switch(h, a, enabled, fails).0)
  {
    hide Find, WithStatus;
  }

  lemma {:induction false} SwitchAllKeepsKnown(h: Hub, snapshot: seq<(AccountId, Standing)>, enabled: bool, force: bool,
                                               failing: set<AccountId>)
    requires WellFormed(h) && KnownStatuses(h) && forall j :: 0 <= j < |snapshot| ==> snapshot[j].0 < |h.accounts|
    ensures KnownStatuses(SwitchAll(h, snapshot, enabled, force, failing).0)
    decreases |snapshot|
  {
    hide Switch, KnownStatuses;
    if snapshot != [] {
      var (a, status) := snapshot[0];
      SwitchKeepsKnown(h, a, enabled, a in failing);
      var h1 := if status == StandingOf(enabled) && !force then h else Switch(h, a, enabled, a in failing).0;
      SwitchAllKeepsKnown(h1, snapshot[1..], enabled, force, failing);
    }
  }

  lemma EnsureInKeepsKnown(h: Hub, u: PersonId, p: ProviderId, name: string, fails: bool)
    requires WellFormed(h) && KnownStatuses(h) && u < |h.persons|
    ensures KnownStatuses(EnsureIn(h, u, p, name, fails).0)
  {
    hide EnsurePrimary, EmailTaken, UserIdText;
    EnsurePrimaryKeepsKnown(h, u);
  }

  lemma StepKeepsKnown(h: Hub, step: Step)
    requires WellFormed(h) && KnownStatuses(h)
    ensures KnownStatuses(Apply(h, step))
  {
    hide Switch, EnsureIn, EnsurePrimary, SwitchAll, KnownStatuses;
    match step
    case EnsurePrimaryStep(u) =>
      if u < |h.persons| {
        EnsurePrimaryKeepsKnown(h, u);
      }
    case EnsureStep(u, p, name, fails) =>
      if u < |h.persons| {
        EnsureInKeepsKnown(h, u, p, name, fails);
      }
    case SetAccountStep(a, enabled, fails) =>
      if a < |h.accounts| {
        SwitchKeepsKnown(h, a, enabled, fails);
      }
    case SetPersonStep(u, enabled, actor, force, skip, failing) =>
      if u < |h.persons| {
        EnsurePrimaryKeepsKnown(h, u);
        var h1 := EnsurePrimary(h, u).0;
        SwitchAllKeepsKnown(h1, SnapshotBelow(h1, u, skip, |h1.accounts|), enabled, force, failing);
      }
  }

  lemma {:induction false} RunKeepsKnown(h: Hub, steps: seq<Step>)
    requires WellFormed(h) && KnownStatuses(h)
    ensures KnownStatuses(Run(h, steps))
    decreases |steps|
  {
    hide Apply, KnownStatuses;
    if steps != [] {
      StepKeepsKnown(h, steps[0]);
      RunKeepsKnown(Apply(h, steps[0]), steps[1..]);
    }
  }

  lemma ReachableStatusesAreKnown(h: Hub)
    requires Reachable(h)
    ensures KnownStatuses(h)
  {
    var start: Hub, steps: seq<Step> :| FreshlySynced(start) && h == Run(start, steps);
    hide Run, UserIdText;
    RunKeepsKnown(start, steps);
  }

  /** In every reachable hub, whatever calls fail and whichever directories are skipped, the person of a connected
      directory ends with the status of the primary account, and the directory shows it. */
  lemma PersonFollowsPrimary(h: Hub, u: PersonId, enabled: bool, actor: Option<PersonId>, force: bool,
                             skip: set<ProviderId>, failing: set<AccountId>)
    requires Reachable(h) && u < |h.persons| && (enabled || actor != Some(u))
    requires Connected(h, h.persons[u].provider)
    ensures var primary := EnsurePrimary(h, u).1; var x := h.persons[u];
            var k := SetPerson(h, u, enabled, actor, force, skip, failing).0;
            && primary.Some? && primary.value < |k.accounts| && u < |k.persons|
            && IsPrimary(x, k.accounts[primary.value])
            && k.persons[u].status == k.accounts[primary.value].status
            && Shows(k, x.provider, x.externalId, k.persons[u].status)
  {
    ReachableHubsAgree(h);
    ReachableStatusesAreKnown(h);
    hide Reachable;
    PrimaryRowMirrors(h, u);
    var (h1, primary) := EnsurePrimary(h, u);
    EnsurePrimaryKeepsKnown(h, u);
    hide EnsurePrimary, SetPerson, Agreement, Shows, Reaches;
    PersonFollowsPrimaryExactly(h, u, enabled, actor, force, skip, failing);
    var k := SetPerson(h, u, enabled, actor, force, skip, failing).0;
    StillPrimary(h, h1, k, u, primary.value, enabled, actor, force, skip, failing);
  }

  /** The primary account is still the person's own afterwards, and not deleted. */
  lemma StillPrimary(h: Hub, h1: Hub, k: Hub, u: PersonId, a: AccountId, enabled: bool, actor: Option<PersonId>,
                     force: bool, skip: set<ProviderId>, failing: set<AccountId>)
    requires Agreement(h) && KnownStatuses(h) && u < |h.persons| && (enabled || actor != Some(u))
    requires h1 == EnsurePrimary(h, u).0 && k == SetPerson(h, u, enabled, actor, force, skip, failing).0
    requires a < |h1.accounts| && IsPrimary(h.persons[u], h1.accounts[a])
    ensures a < |k.accounts| && IsPrimary(h.persons[u], k.accounts[a]) && Known(k.accounts[a].status)
    ensures Shows(k, h.persons[u].provider, h.persons[u].externalId, k.accounts[a].status)
  {
    EnsurePrimaryKeepsKnown(h, u);
    SetPersonAgrees(h, u, enabled, actor, force, skip, failing);
    SetPersonIsPerAccount(h, u, enabled, actor, force, skip, failing);
    var snapshot := SnapshotBelow(h1, u, skip, |h1.accounts|);
    var results := SetPerson(h, u, enabled, actor, force, skip, failing).1.value;
    hide EnsurePrimary, SetPerson, SnapshotBelow, KnownStatuses, PerAccount, InTable, Agreement, Shows;
    RowAfter(h1, k, snapshot, results, enabled, force, failing, a);
    TableShows(k, a);
  }

  lemma RowAfter(h: Hub, k: Hub, snapshot: seq<(AccountId, Standing)>, results: seq<ActionResult>, enabled: bool,
                 force: bool, failing: set<AccountId>, a: AccountId)
    requires InTable(h, snapshot) && PerAccount(h, k, snapshot, results, enabled, force, failing)
    requires KnownStatuses(h) && a < |h.accounts|
    ensures a < |k.accounts| && k.accounts[a] == h.accounts[a].(status := k.accounts[a].status)
    ensures Known(k.accounts[a].status)
  {
    hide Toggles, PrimaryToggled, ToggledIn;
  }

  lemma TableShows(h: Hub, a: AccountId)
    requires Agreement(h) && a < |h.accounts| && h.accounts[a].status != DELETED
    ensures Shows(h, h.accounts[a].provider, h.accounts[a].externalId, h.accounts[a].status)
  {
  }

  lemma PrimaryInSnapshot(h: Hub, u: PersonId, skip: set<ProviderId>, a: AccountId, enabled: bool, force: bool,
                          failing: set<AccountId>)
    requires a < |h.accounts| && h.accounts[a].user == u && InTable(h, SnapshotBelow(h, u, skip, |h.accounts|))
    ensures ToggledIn(h, SnapshotBelow(h, u, skip, |h.accounts|), a, enabled, force, failing)
            <==> SwitchesPrimary(h, a, enabled, force, skip, failing)
  {
    hide Toggles;
    var snapshot := SnapshotBelow(h, u, skip, |h.accounts|);
    if h.accounts[a].provider !in skip {
      var j :| 0 <= j < |snapshot| && snapshot[j] == (a, h.accounts[a].status);
    }
  }

  lemma PrimaryRowMirrors(h: Hub, u: PersonId)
    requires Agreement(h) && u < |h.persons| && Connected(h, h.persons[u].provider)
    ensures var (h1, primary) := EnsurePrimary(h, u);
            && primary.Some? && primary.value < |h1.accounts| && h1.persons == h.persons
            && IsPrimary(h.persons[u], h1.accounts[primary.value]) && h1.accounts[primary.value].user == u
            && (h1.accounts[primary.value].status != DELETED ==>
                  h1.accounts[primary.value].status == Mirrored(h.persons[u].status))
  {
    hide Find, Dense, AccountsAgree, PersonsAgree;
  }

  lemma PrimaryMovesWithPerson(h: Hub, snapshot: seq<(AccountId, Standing)>, u: PersonId, a: AccountId, enabled: bool,
                               force: bool, failing: set<AccountId>)
    requires InTable(h, snapshot) && Unique(h) && u < |h.persons| && a < |h.accounts|
    requires IsPrimary(h.persons[u], h.accounts[a]) && h.accounts[a].user == u
    ensures ToggledIn(h, snapshot, a, enabled, force, failing)
            <==> PrimaryToggled(h, snapshot, u, enabled, force, failing)
  {
    hide Reaches;
    if PrimaryToggled(h, snapshot, u, enabled, force, failing) {
      var j :| 0 <= j < |snapshot| && Toggles(h, snapshot[j], enabled, force, failing)
               && h.accounts[snapshot[j].0].user == u && IsPrimary(h.persons[u], h.accounts[snapshot[j].0]);
      assert snapshot[j].0 == a;
    }
  }

  // ----- ensure_account_in_provider

  /** The account that answers for a person in a provider. */
  function AnswerFor(h: Hub, u: PersonId, p: ProviderId): Option<AccountId>
    requires u < |h.persons|
  {
    if h.persons[u].provider == p then FindAccount(h.accounts, p, h.persons[u].externalId, 0)
    else FindIn(h.accounts, u, p, 0)
  }

  lemma EnsureAnswers(h: Hub, u: PersonId, p: ProviderId, name: string, fails: bool)
    requires Agreement(h) && u < |h.persons|
    ensures var (k, r) := EnsureIn(h, u, p, name, fails);
            r.Success? && r.value.Some? ==> AnswerFor(k, u, p) == r.value
  {
    EnsureInAgrees(h, u, p, name, fails);
    hide Find, Dense, UserIdText, AccountsAgree, PersonsAgree, DenseDirectories, EmailTaken;
    var (k, r) := EnsureIn(h, u, p, name, fails);
    if r.Success? && r.value.Some? {
      if h.persons[u].provider == p {
        assert IsPrimary(h.persons[u], k.accounts[r.value.value]);
        hide EnsurePrimary, EnsureIn, Grows;
        OnlyAccount(k, p, h.persons[u].externalId, r.value.value);
      } else if FindIn(h.accounts, u, p, 0).None? {
        var b := FindIn(k.accounts, u, p, 0);
        assert k.accounts[|h.accounts|].user == u && k.accounts[|h.accounts|].provider == p;
        assert b.Some? && k.accounts[b.value].user == u && k.accounts[b.value].provider == p;
        assert b.value == |h.accounts|;
      }
    }
  }

  lemma OnlyAccount(h: Hub, p: ProviderId, id: string, a: AccountId)
    requires Unique(h) && a < |h.accounts| && h.accounts[a].provider == p && h.accounts[a].externalId == id
    ensures FindAccount(h.accounts, p, id, 0) == Some(a)
  {
    hide FindAccount;
    var b := FindAccount(h.accounts, p, id, 0);
    assert b.Some?;
  }

  /** A person is given an account in another directory exactly when there is one already, or the directory is real,
      open for new accounts, reachable and has the name free. A failure changes nothing, and this is the error; a new
      account is one new active user in that directory, with the person's name and the chosen username, and one new row
      for it, and the username is taken there from then on. */
  lemma EnsureInExactly(h: Hub, u: PersonId, p: ProviderId, name: string, fails: bool)
    requires Agreement(h) && u < |h.persons| && h.persons[u].provider != p
    ensures var (k, r) := EnsureIn(h, u, p, name, fails); var found := FindIn(h.accounts, u, p, 0);
            && (r.Failure? ==> k == h)
            && (found.Some? ==> k == h && r == Success(found))
            && (found.None? ==>
                  (r.Success? <==> Connected(h, p) && h.providers[p].provisionsJoiners && !fails
                                   && !EmailTaken(h.directories[p], name)))
            && (found.None? && r.Failure? ==>
                  r.error == if !Connected(h, p) then ProviderNotFound
                             else if !h.providers[p].provisionsJoiners then ProvisioningDisabled
                             else if fails then DirectoryFailed else UsernameTaken)
            && (found.None? && r.Success? ==> NewAccount(h, k, u, p, name))
  {
    hide Find, Dense, UserIdText, Lower;
    var (k, r) := EnsureIn(h, u, p, name, fails);
    EnsureInAgrees(h, u, p, name, fails);
    if FindIn(h.accounts, u, p, 0).None? && r.Success? {
      assert k.directories[p][|h.directories[p]|].email == name;
      hide EmailTaken;
      assert Present(k, p, k.accounts[|h.accounts|].externalId);
    }
  }

  predicate NewAccount(h: Hub, k: Hub, u: PersonId, p: ProviderId, name: string) {
    && |k.accounts| == |h.accounts| + 1 && k.accounts[..|h.accounts|] == h.accounts
    && p in h.directories && p in k.directories && k.directories == h.directories[p := k.directories[p]]
    && |k.directories[p]| == |h.directories[p]| + 1 && k.directories[p][..|h.directories[p]|] == h.directories[p]
    && var row := k.accounts[|h.accounts|];
    && row.user == u && row.provider == p && row.username == name && row.status == ACTIVE
    && row.origin == FromAssignment
    && row.externalId == k.directories[p][|h.directories[p]|].externalId
    && Shows(k, p, row.externalId, ACTIVE)
    && var user := k.directories[p][|h.directories[p]|];
    && user.email == name && u < |h.persons| && user.displayName == h.persons[u].name && user.status == ACTIVE
    && EmailTaken(k.directories[p], name)
  }

  lemma AnswerIsStable(h: Hub, k: Hub, u: PersonId, p: ProviderId)
    requires Agreement(h) && Agreement(k) && Grows(h, k) && u < |h.persons| && AnswerFor(h, u, p).Some?
    ensures AnswerFor(k, u, p) == AnswerFor(h, u, p)
  {
    hide Find, Dense, AccountsAgree, PersonsAgree;
    var a := AnswerFor(h, u, p).value;
    if h.persons[u].provider == p {
      assert FindAccount(k.accounts, p, h.persons[u].externalId, 0).Some?;
    } else {
      var b := FindIn(k.accounts, u, p, 0);
      assert b.Some? && b.value <= a;
    }
  }

  /** Ensuring is idempotent over whole runs: once a person has got an account in a provider, ensuring it again at any
      later time answers with the same account and writes to no directory, even while the directory is failing. So a
      person is never given a second account there. */
  lemma EnsureIsIdempotent(h: Hub, u: PersonId, p: ProviderId, name: string, fails: bool, steps: seq<Step>,
                           laterName: string, laterFails: bool)
    requires Agreement(h) && u < |h.persons|
    ensures var (h1, r) := EnsureIn(h, u, p, name, fails);
            var later := Run(h1, steps);
            |later.persons| == |h.persons|
            && (r.Success? && r.value.Some? ==>
                  var (k, again) := EnsureIn(later, u, p, laterName, laterFails);
                  again == r && k.directories == later.directories && |k.accounts| == |later.accounts|)
  {
    var (h1, r) := EnsureIn(h, u, p, name, fails);
    var later := Run(h1, steps);
    EnsureInAgrees(h, u, p, name, fails);
    RunKeepsAgreement(h1, steps);
    if r.Success? && r.value.Some? {
      EnsureAnswers(h, u, p, name, fails);
      AnswerIsStable(h1, later, u, p);
      hide Run, AccountsAgree, PersonsAgree, Unique, DenseDirectories, Find;
      EnsuringWhatIsThere(later, u, p, laterName, laterFails);
      assert later.persons[u].provider == h.persons[u].provider;
      assert later.providers == h1.providers;
    }
  }

  lemma EnsuringWhatIsThere(h: Hub, u: PersonId, p: ProviderId, name: string, fails: bool)
    requires WellFormed(h) && u < |h.persons| && AnswerFor(h, u, p).Some?
    requires h.persons[u].provider == p ==> p in h.providers && !h.providers[p].isCsv
    ensures var (k, r) := EnsureIn(h, u, p, name, fails);
            && k.directories == h.directories && |k.accounts| == |h.accounts|
            && r == Success(AnswerFor(h, u, p))
  {
  }
}
