/** The account table agrees with the directories over every run, and switching a person is a per-account map. */
module AccountAgreement {
  import opened Wrappers
  import opened MockDirectory
  import opened AccountModel

  /** The directory of a provider shows this status for this user. */
  predicate Shows(h: Hub, p: ProviderId, id: string, status: Standing) {
    && Connected(h, p)
    && Find(h.directories[p], id).Some? && h.directories[p][Find(h.directories[p], id).value].status == status
  }

  predicate Present(h: Hub, p: ProviderId, id: string) {
    Connected(h, p) && Find(h.directories[p], id).Some?
  }

  /** Every account is in its directory, where it has the status the table says (unless the account was deleted). */
  predicate AccountsAgree(h: Hub) {
    forall a :: 0 <= a < |h.accounts| ==>
      var row := h.accounts[a];
      && Present(h, row.provider, row.externalId)
      && (row.status != DELETED ==> Shows(h, row.provider, row.externalId, row.status))
  }

  /** Every person synced from a connected directory is there, with the person's own status. */
  predicate PersonsAgree(h: Hub) {
    forall u :: 0 <= u < |h.persons| && Connected(h, h.persons[u].provider) ==>
      Shows(h, h.persons[u].provider, h.persons[u].externalId, Mirrored(h.persons[u].status))
  }

  /** (provider, external id) is unique among accounts and among persons, and an account that is some person's own
      identity belongs to that person. */
  predicate Unique(h: Hub) {
    && (forall a, b :: 0 <= a < b < |h.accounts| ==>
          h.accounts[a].provider != h.accounts[b].provider || h.accounts[a].externalId != h.accounts[b].externalId)
    && (forall u, v :: 0 <= u < v < |h.persons| ==>
          h.persons[u].provider != h.persons[v].provider || h.persons[u].externalId != h.persons[v].externalId)
    && (forall a, u :: 0 <= a < |h.accounts| && 0 <= u < |h.persons| && IsPrimary(h.persons[u], h.accounts[a]) ==>
          h.accounts[a].user == u)
  }

  predicate DenseDirectories(h: Hub) {
    forall p :: p in h.directories ==> Dense(h.directories[p])
  }

  predicate Agreement(h: Hub) {
    WellFormed(h) && AccountsAgree(h) && PersonsAgree(h) && Unique(h) && DenseDirectories(h)
  }

  /** Rows keep whose account they are; none disappears. */
  predicate Grows(h: Hub, k: Hub) {
    && |h.accounts| <= |k.accounts| && |h.persons| == |k.persons|
    && (forall a :: 0 <= a < |h.accounts| ==>
          && k.accounts[a].user == h.accounts[a].user && k.accounts[a].provider == h.accounts[a].provider
          && k.accounts[a].externalId == h.accounts[a].externalId)
    && (forall u :: 0 <= u < |h.persons| ==> k.persons[u] == h.persons[u].(status := k.persons[u].status))
    && k.providers == h.providers
  }

  lemma GrowsTransitive(h: Hub, k: Hub, l: Hub)
    requires Grows(h, k) && Grows(k, l)
    ensures Grows(h, l)
  {
  }

  // ----- each call

  /** A new account row of somebody present in the directory. */
  lemma AppendingKeepsAgreement(h: Hub, row: Account)
    requires Agreement(h) && row.user < |h.persons|
    requires Present(h, row.provider, row.externalId)
    requires row.status != DELETED ==> Shows(h, row.provider, row.externalId, row.status)
    requires FindAccount(h.accounts, row.provider, row.externalId, 0).None?
    requires forall u :: 0 <= u < |h.persons| && IsPrimary(h.persons[u], row) ==> row.user == u
    ensures var k := h.(accounts := h.accounts + [row]); Agreement(k) && Grows(h, k)
  {
    hide Find, Shows, Present, Dense;
    var k := h.(accounts := h.accounts + [row]);
    SameDirectories(h, k);
  }

  /** Present and Shows depend on nothing but providers and directories. */
  lemma SameDirectories(h: Hub, k: Hub)
    requires k.providers == h.providers && k.directories == h.directories
    ensures forall p: ProviderId, id: string :: Present(k, p, id) <==> Present(h, p, id)
    ensures forall p: ProviderId, id: string, status: Standing :: Shows(k, p, id, status) <==> Shows(h, p, id, status)
    ensures forall p: ProviderId :: Connected(k, p) <==> Connected(h, p)
  {
  }

  lemma ReplacingKeepsAgreement(h: Hub, a: AccountId, row: Account)
    requires Agreement(h) && a < |h.accounts|
    requires row.user == h.accounts[a].user && row.provider == h.accounts[a].provider
    requires row.externalId == h.accounts[a].externalId
    requires row.status != DELETED ==> Shows(h, row.provider, row.externalId, row.status)
    ensures var k := h.(accounts := h.accounts[a := row]); Agreement(k) && Grows(h, k)
  {
    hide Find, Shows, Present, Dense;
    var k := h.(accounts := h.accounts[a := row]);
    SameDirectories(h, k);
  }

  lemma EnsurePrimaryAgrees(h: Hub, u: PersonId)
    requires Agreement(h) && u < |h.persons|
    ensures Agreement(EnsurePrimary(h, u).0) && Grows(h, EnsurePrimary(h, u).0)
  {
    hide Find, Dense;
    var x := h.persons[u];
    if x.provider in h.providers && !h.providers[x.provider].isCsv {
      assert Connected(h, x.provider) && Shows(h, x.provider, x.externalId, Mirrored(x.status));
      match FindAccount(h.accounts, x.provider, x.externalId, 0)
      case None =>
        AppendingKeepsAgreement(h, Account(u, x.provider, x.externalId, x.email, Mirrored(x.status), FromSync));
      case Some(a) =>
        if h.accounts[a].status != DELETED {
          assert IsPrimary(x, h.accounts[a]);
          ReplacingKeepsAgreement(h, a, h.accounts[a].(user := u, username := x.email, status := Mirrored(x.status)));
        }
    }
  }

  /** What mirroring the own identity comes to. Nobody outside a connected directory gets an account. Otherwise one
      row is the person's own: a new one with their data, the one that was there brought up to date, or a deleted one
      left as it is. No other row changes. */
  lemma EnsurePrimaryExactly(h: Hub, u: PersonId)
    requires Agreement(h) && u < |h.persons|
    ensures var (k, r) := EnsurePrimary(h, u); var x := h.persons[u];
            var status := if x.status == DISABLED then DISABLED else ACTIVE;
            && (r.Some? <==> Connected(h, x.provider)) && (r.None? ==> k == h)
            && (r.Some? ==>
                  && k == h.(accounts := k.accounts) && r.value < |k.accounts|
                  && (forall a :: 0 <= a < |h.accounts| && a != r.value ==> k.accounts[a] == h.accounts[a])
                  && if r.value < |h.accounts| then
                       && |k.accounts| == |h.accounts| && IsPrimary(x, h.accounts[r.value])
                       && k.accounts[r.value] == if h.accounts[r.value].status == DELETED then h.accounts[r.value]
                                                 else h.accounts[r.value].(username := x.email, status := status)
                     else
                       && |k.accounts| == |h.accounts| + 1 && r.value == |h.accounts|
                       && (forall a :: 0 <= a < |h.accounts| ==> !IsPrimary(x, h.accounts[a]))
                       && k.accounts[r.value] == Account(u, x.provider, x.externalId, x.email, status, FromSync))
  {
    hide Find, Dense, AccountsAgree, PersonsAgree;
  }

  lemma FindAfterHiring(users: seq<DirectoryUser>, x: DirectoryUser, id: string)
    requires id != x.externalId
    ensures Find(users + [x], id) == Find(users, id)
  {
    var r, q := Find(users + [x], id), Find(users, id);
    if q.Some? {
      assert (users + [x])[q.value].externalId == id;
    }
    if r.Some? {
      assert r.value < |users|;
      assert users[r.value].externalId == id;
    }
  }

  lemma EnsureInAgrees(h: Hub, u: PersonId, p: ProviderId, name: string, fails: bool)
    requires Agreement(h) && u < |h.persons|
    ensures Agreement(EnsureIn(h, u, p, name, fails).0) && Grows(h, EnsureIn(h, u, p, name, fails).0)
  {
    hide Find, UserIdText, Dense;
    var x := h.persons[u];
    var k := EnsureIn(h, u, p, name, fails).0;
    if x.provider == p {
      EnsurePrimaryAgrees(h, u);
    } else if k != h {
      var request := NewUser(name, x.name, None, None, true);
      NextIdIsFresh(h.directories[p], request);
      var h1 := h.(directories := h.directories[p := h.directories[p] + [Hired(h.directories[p], request)]]);
      HiringKeepsAgreement(h, p, Hired(h.directories[p], request));
      var id := Hired(h.directories[p], request).externalId;
      AppendingKeepsAgreement(h1, Account(u, p, id, name, ACTIVE, FromAssignment));
      GrowsTransitive(h, h1, k);
    }
  }

  /** Hiring adds one user to what the directories show and changes nothing else. */
  lemma HiringShows(h: Hub, p: ProviderId, hired: DirectoryUser)
    requires Connected(h, p) && Find(h.directories[p], hired.externalId).None?
    ensures var k := h.(directories := h.directories[p := h.directories[p] + [hired]]);
            && Shows(k, p, hired.externalId, hired.status)
            && (forall q: ProviderId :: Connected(k, q) <==> Connected(h, q))
            && (forall q: ProviderId, id: string :: Present(h, q, id) ==>
                  Present(k, q, id) && (q == p ==> id != hired.externalId))
            && (forall q: ProviderId, id: string, status: Standing ::
                  Shows(h, q, id, status) ==> Shows(k, q, id, status))
  {
    var users := h.directories[p];
    var k := h.(directories := h.directories[p := users + [hired]]);
    forall q: ProviderId, id: string | Present(h, q, id)
      ensures Present(k, q, id) && (q == p ==> id != hired.externalId)
    {
      if q == p {
        FindAfterHiring(users, hired, id);
      }
    }
    forall q: ProviderId, id: string, status: Standing | Shows(h, q, id, status)
      ensures Shows(k, q, id, status)
    {
      if q == p {
        FindAfterHiring(users, hired, id);
      }
    }
    assert (users + [hired])[|users|].externalId == hired.externalId;
    var at := Find(users + [hired], hired.externalId);
    assert at.Some? && at.value == |users|;
  }

  /** A new directory user with a new id is nobody's account yet. */
  lemma HiringKeepsAgreement(h: Hub, p: ProviderId, hired: DirectoryUser)
    requires Agreement(h) && Connected(h, p)
    requires Find(h.directories[p], hired.externalId).None? && Dense(h.directories[p] + [hired])
    ensures var k := h.(directories := h.directories[p := h.directories[p] + [hired]]);
            && Agreement(k) && Grows(h, k) && Shows(k, p, hired.externalId, hired.status)
            && FindAccount(k.accounts, p, hired.externalId, 0).None?
            && forall u :: 0 <= u < |h.persons| ==>
                 h.persons[u].provider != p || h.persons[u].externalId != hired.externalId
  {
    HiringShows(h, p, hired);
    hide Dense, Find, Shows, Present, Connected;
    var k := h.(directories := h.directories[p := h.directories[p] + [hired]]);
    forall u | 0 <= u < |h.persons| && h.persons[u].provider == p
      ensures h.persons[u].externalId != hired.externalId
    {
      ShownIsPresent(h, p, h.persons[u].externalId, Mirrored(h.persons[u].status));
    }
    forall a | 0 <= a < |h.accounts|
      ensures h.accounts[a].provider != p || h.accounts[a].externalId != hired.externalId
    {
      assert Present(h, h.accounts[a].provider, h.accounts[a].externalId);
    }
    assert FindAccount(k.accounts, p, hired.externalId, 0).None?;
    hide FindAccount;
    ShowingMoreKeepsAgreement(h, k);
  }

  lemma ShowingMoreKeepsAgreement(h: Hub, k: Hub)
    requires Agreement(h) && k == h.(directories := k.directories) && WellFormed(k) && DenseDirectories(k)
    requires forall q: ProviderId :: Connected(k, q) <==> Connected(h, q)
    requires forall q: ProviderId, id: string :: Present(h, q, id) ==> Present(k, q, id)
    requires forall q: ProviderId, id: string, status: Standing :: Shows(h, q, id, status) ==> Shows(k, q, id, status)
    ensures Agreement(k) && Grows(h, k)
  {
    hide Dense, Find, Shows, Present, Connected;
  }

  lemma ShownIsPresent(h: Hub, p: ProviderId, id: string, status: Standing)
    requires Shows(h, p, id, status)
    ensures Present(h, p, id)
  {
  }

  // ----- switching

  lemma SwitchedDirectory(users: seq<DirectoryUser>, id: string, status: Standing, other: string)
    requires Find(users, id).Some?
    ensures var later := WithStatus(users, id, status);
            && Find(later, other) == Find(users, other)
            && later[Find(users, id).value].status == status
            && (other != id && Find(users, other).Some? ==>
                  later[Find(users, other).value] == users[Find(users, other).value])
  {
    var later := WithStatus(users, id, status);
    var r, q := Find(later, other), Find(users, other);
    if q.Some? {
      assert later[q.value].externalId == other;
    }
    if r.Some? {
      assert users[r.value].externalId == other;
    }
  }

  /** Switching one account changes what the directories show for that account only. */
  lemma SwitchShows(h: Hub, a: AccountId, enabled: bool, fails: bool)
    requires WellFormed(h) && a < |h.accounts| && Reaches(h, a, fails)
    ensures var k := Switch(h, a, enabled, fails).0; var row := h.accounts[a];
            && (forall p: ProviderId :: Connected(k, p) <==> Connected(h, p))
            && (forall p: ProviderId, id: string :: Present(k, p, id) <==> Present(h, p, id))
            && Shows(k, row.provider, row.externalId, StandingOf(enabled))
            && (forall p: ProviderId, id: string, status: Standing | p != row.provider || id != row.externalId ::
                  Shows(k, p, id, status) <==> Shows(h, p, id, status))
  {
    var k := Switch(h, a, enabled, fails).0;
    var row := h.accounts[a];
    var users := h.directories[row.provider];
    var later := WithStatus(users, row.externalId, StandingOf(enabled));
    assert k.directories == h.directories[row.provider := later] && k.providers == h.providers;
    hide Find, WithStatus, Switch;
    SwitchedDirectory(users, row.externalId, StandingOf(enabled), row.externalId);
    forall p: ProviderId, id: string
      ensures Present(k, p, id) <==> Present(h, p, id)
    {
      SwitchedDirectory(users, row.externalId, StandingOf(enabled), id);
    }
    forall p: ProviderId, id: string, status: Standing | p != row.provider || id != row.externalId
      ensures Shows(k, p, id, status) <==> Shows(h, p, id, status)
    {
      SwitchedDirectory(users, row.externalId, StandingOf(enabled), id);
    }
  }

  /** What Switch does to the tables. */
  lemma SwitchRows(h: Hub, a: AccountId, enabled: bool, fails: bool)
    requires WellFormed(h) && a < |h.accounts| && Reaches(h, a, fails)
    ensures var k := Switch(h, a, enabled, fails).0; var row := h.accounts[a];
            && k.accounts == h.accounts[a := row.(status := StandingOf(enabled))]
            && k.providers == h.providers && |k.persons| == |h.persons|
            && (forall u :: 0 <= u < |h.persons| ==>
                  k.persons[u] == if u == row.user && IsPrimary(h.persons[u], row)
                                  then h.persons[u].(status := StandingOf(enabled)) else h.persons[u])
  {
  }

  lemma SwitchAgrees(h: Hub, a: AccountId, enabled: bool, fails: bool)
    requires Agreement(h) && a < |h.accounts|
    ensures Agreement(Switch(h, a, enabled, fails).0) && Grows(h, Switch(h, a, enabled, fails).0)
  {
    var k := Switch(h, a, enabled, fails).0;
    if Reaches(h, a, fails) {
      SwitchShows(h, a, enabled, fails);
      SwitchStaysDense(h, a, enabled, fails);
      SwitchRows(h, a, enabled, fails);
      hide Switch, Find, WithStatus, Dense, Shows, Present, Reaches, Connected;
      PersonsStillAgree(h, k, a, enabled);
      AccountsStillAgree(h, k, a, enabled);
      hide PersonsAgree, AccountsAgree;
      StatusesKeepUnique(h, k);
    }
  }

  lemma StatusesKeepUnique(h: Hub, k: Hub)
    requires Unique(h) && |k.accounts| == |h.accounts| && |k.persons| == |h.persons|
    requires forall u :: 0 <= u < |h.persons| ==> k.persons[u] == h.persons[u].(status := k.persons[u].status)
    requires forall a :: 0 <= a < |h.accounts| ==> k.accounts[a] == h.accounts[a].(status := k.accounts[a].status)
    ensures Unique(k)
  {
  }

  lemma PersonsStillAgree(h: Hub, k: Hub, a: AccountId, enabled: bool)
    requires Agreement(h) && a < |h.accounts| && |k.persons| == |h.persons|
    requires var row := h.accounts[a];
             && (forall p: ProviderId :: Connected(k, p) <==> Connected(h, p))
             && Shows(k, row.provider, row.externalId, StandingOf(enabled))
             && (forall p: ProviderId, id: string, status: Standing | p != row.provider || id != row.externalId ::
                   Shows(k, p, id, status) <==> Shows(h, p, id, status))
             && (forall u :: 0 <= u < |h.persons| ==>
                   k.persons[u] == if u == row.user && IsPrimary(h.persons[u], row)
                                   then h.persons[u].(status := StandingOf(enabled)) else h.persons[u])
    ensures PersonsAgree(k)
  {
    hide Find, Dense, Shows, Present, Connected;
    var row := h.accounts[a];
    forall u | 0 <= u < |k.persons| && Connected(k, k.persons[u].provider)
      ensures Shows(k, k.persons[u].provider, k.persons[u].externalId, Mirrored(k.persons[u].status))
    {
      assert Shows(h, h.persons[u].provider, h.persons[u].externalId, Mirrored(h.persons[u].status));
      if IsPrimary(h.persons[u], row) {
        assert row.user == u;
      }
    }
  }

  lemma AccountsStillAgree(h: Hub, k: Hub, a: AccountId, enabled: bool)
    requires Agreement(h) && a < |h.accounts|
    requires var row := h.accounts[a];
             && k.accounts == h.accounts[a := row.(status := StandingOf(enabled))]
             && Shows(k, row.provider, row.externalId, StandingOf(enabled))
             && (forall p: ProviderId, id: string :: Present(k, p, id) <==> Present(h, p, id))
             && (forall p: ProviderId, id: string, status: Standing | p != row.provider || id != row.externalId ::
                   Shows(k, p, id, status) <==> Shows(h, p, id, status))
    ensures AccountsAgree(k)
  {
    hide Find, Dense, Shows, Present, Connected;
  }

  lemma SwitchStaysDense(h: Hub, a: AccountId, enabled: bool, fails: bool)
    requires WellFormed(h) && a < |h.accounts| && Reaches(h, a, fails) && DenseDirectories(h)
    ensures DenseDirectories(Switch(h, a, enabled, fails).0) && WellFormed(Switch(h, a, enabled, fails).0)
  {
    hide UserIdText;
  }

  // ----- switching a whole person

  /** Whether the loop changes this account: it is not skipped as already done, and its directory goes along. */
  predicate Toggles(h: Hub, entry: (AccountId, Standing), enabled: bool, force: bool, failing: set<AccountId>)
    requires entry.0 < |h.accounts|
  {
    (entry.1 != StandingOf(enabled) || force) && Reaches(h, entry.0, entry.0 in failing)
  }

  function ResultFor(h: Hub, entry: (AccountId, Standing), enabled: bool, force: bool, failing: set<AccountId>)
    : ActionResult
    requires entry.0 < |h.accounts|
  {
    var already := entry.1 == StandingOf(enabled) && !force;
    ActionResult(entry.0, already || Reaches(h, entry.0, entry.0 in failing), already)
  }

  predicate InTable(h: Hub, snapshot: seq<(AccountId, Standing)>) {
    && (forall j :: 0 <= j < |snapshot| ==> snapshot[j].0 < |h.accounts|)
    && (forall i, j :: 0 <= i < j < |snapshot| ==> snapshot[i].0 != snapshot[j].0)
  }

  predicate ToggledIn(h: Hub, snapshot: seq<(AccountId, Standing)>, a: AccountId, enabled: bool, force: bool,
                      failing: set<AccountId>)
    requires InTable(h, snapshot)
  {
    exists j :: 0 <= j < |snapshot| && snapshot[j].0 == a && Toggles(h, snapshot[j], enabled, force, failing)
  }

  /** Some toggled account is person v's own identity. */
  predicate PrimaryToggled(h: Hub, snapshot: seq<(AccountId, Standing)>, v: PersonId, enabled: bool, force: bool,
                           failing: set<AccountId>)
    requires InTable(h, snapshot) && v < |h.persons|
  {
    exists j :: 0 <= j < |snapshot| && Toggles(h, snapshot[j], enabled, force, failing)
      && h.accounts[snapshot[j].0].user == v && IsPrimary(h.persons[v], h.accounts[snapshot[j].0])
  }

  /** One result per account in order, each account decided on its own, and each person follows the own identity. */
  predicate PerAccount(h: Hub, k: Hub, snapshot: seq<(AccountId, Standing)>, results: seq<ActionResult>, enabled: bool,
                       force: bool, failing: set<AccountId>)
    requires InTable(h, snapshot)
  {
    && |k.accounts| == |h.accounts| && |k.persons| == |h.persons| && |results| == |snapshot|
    && (forall j :: 0 <= j < |snapshot| ==> results[j] == ResultFor(h, snapshot[j], enabled, force, failing))
    && (forall a :: 0 <= a < |h.accounts| ==>
          k.accounts[a] == if ToggledIn(h, snapshot, a, enabled, force, failing)
                           then h.accounts[a].(status := StandingOf(enabled)) else h.accounts[a])
    && (forall v :: 0 <= v < |h.persons| ==>
          k.persons[v] == if PrimaryToggled(h, snapshot, v, enabled, force, failing)
                          then h.persons[v].(status := StandingOf(enabled)) else h.persons[v])
  }

  lemma {:induction false} SwitchAllIsPerAccount(h: Hub, snapshot: seq<(AccountId, Standing)>, enabled: bool,
                                                 force: bool, failing: set<AccountId>)
    requires WellFormed(h) && InTable(h, snapshot)
    ensures var (k, results) := SwitchAll(h, snapshot, enabled, force, failing);
            PerAccount(h, k, snapshot, results, enabled, force, failing)
    decreases |snapshot|
  {
    hide Reaches;
    if snapshot != [] {
      var head, tail := snapshot[0], snapshot[1..];
      assert InTable(h, tail);
      var h1 := if head.1 == StandingOf(enabled) && !force then h else Switch(h, head.0, enabled, head.0 in failing).0;
      OneSwitch(h, head, enabled, force, failing);
      SwitchAllIsPerAccount(h1, tail, enabled, force, failing);
      var (k, results) := SwitchAll(h, snapshot, enabled, force, failing);
      assert results[1..] == SwitchAll(h1, tail, enabled, force, failing).1;
      assert k == SwitchAll(h1, tail, enabled, force, failing).0;
      hide SwitchAll, Switch;
      PerAccountComposes(h, h1, k, snapshot, results, enabled, force, failing);
    }
  }

  /** The effect of one turn of the loop, and that it leaves every other account as reachable as before. */
  predicate OneStep(h: Hub, h1: Hub, entry: (AccountId, Standing), enabled: bool, force: bool, failing: set<AccountId>)
    requires entry.0 < |h.accounts|
  {
    var row := h.accounts[entry.0];
    var on := Toggles(h, entry, enabled, force, failing);
    && |h1.accounts| == |h.accounts| && |h1.persons| == |h.persons|
    && h1.accounts == h.accounts[entry.0 := if on then row.(status := StandingOf(enabled)) else row]
    && (forall v :: 0 <= v < |h.persons| ==>
          h1.persons[v] == if on && v == row.user && IsPrimary(h.persons[v], row)
                           then h.persons[v].(status := StandingOf(enabled)) else h.persons[v])
    && (forall a, fails :: 0 <= a < |h.accounts| ==> (Reaches(h1, a, fails) <==> Reaches(h, a, fails)))
  }

  lemma OneSwitch(h: Hub, entry: (AccountId, Standing), enabled: bool, force: bool, failing: set<AccountId>)
    requires WellFormed(h) && entry.0 < |h.accounts|
    ensures var h1 := if entry.1 == StandingOf(enabled) && !force then h
                      else Switch(h, entry.0, enabled, entry.0 in failing).0;
            OneStep(h, h1, entry, enabled, force, failing)
  {
    if Toggles(h, entry, enabled, force, failing) {
      SwitchShows(h, entry.0, enabled, entry.0 in failing);
      SwitchRows(h, entry.0, enabled, entry.0 in failing);
      hide Switch, Find;
      var h1 := Switch(h, entry.0, enabled, entry.0 in failing).0;
      forall a, fails | 0 <= a < |h.accounts|
        ensures Reaches(h1, a, fails) <==> Reaches(h, a, fails)
      {
        var row := h.accounts[a];
        assert Reaches(h, a, fails) <==> !fails && Present(h, row.provider, row.externalId);
        assert Reaches(h1, a, fails) <==> !fails && Present(h1, row.provider, row.externalId);
      }
    }
  }

  lemma PerAccountComposes(h: Hub, h1: Hub, k: Hub, snapshot: seq<(AccountId, Standing)>, results: seq<ActionResult>,
                           enabled: bool, force: bool, failing: set<AccountId>)
    requires snapshot != [] && InTable(h, snapshot) && |results| == |snapshot|
    requires OneStep(h, h1, snapshot[0], enabled, force, failing)
    requires InTable(h1, snapshot[1..]) && PerAccount(h1, k, snapshot[1..], results[1..], enabled, force, failing)
    requires results[0] == ResultFor(h, snapshot[0], enabled, force, failing)
    ensures PerAccount(h, k, snapshot, results, enabled, force, failing)
  {
    hide Reaches, IsPrimary;
    var head, tail := snapshot[0], snapshot[1..];
    assert forall j :: 0 <= j < |tail| ==> tail[j] == snapshot[j + 1];
    assert forall j :: 1 <= j < |snapshot| ==> snapshot[j] == tail[j - 1];
    forall j | 0 <= j < |snapshot|
      ensures results[j] == ResultFor(h, snapshot[j], enabled, force, failing)
    {
      if j > 0 {
        assert results[j] == results[1..][j - 1] && snapshot[j] == tail[j - 1];
      }
    }
    AccountsCompose(h, h1, k, snapshot, enabled, force, failing);
    PersonsCompose(h, h1, k, snapshot, enabled, force, failing);
  }

  lemma AccountsCompose(h: Hub, h1: Hub, k: Hub, snapshot: seq<(AccountId, Standing)>, enabled: bool, force: bool,
                        failing: set<AccountId>)
    requires snapshot != [] && InTable(h, snapshot) && InTable(h1, snapshot[1..])
    requires OneStep(h, h1, snapshot[0], enabled, force, failing) && |k.accounts| == |h.accounts|
    requires forall a :: 0 <= a < |h.accounts| ==>
               k.accounts[a] == if ToggledIn(h1, snapshot[1..], a, enabled, force, failing)
                                then h1.accounts[a].(status := StandingOf(enabled)) else h1.accounts[a]
    ensures forall a :: 0 <= a < |h.accounts| ==>
              k.accounts[a] == if ToggledIn(h, snapshot, a, enabled, force, failing)
                               then h.accounts[a].(status := StandingOf(enabled)) else h.accounts[a]
  {
    hide Reaches, IsPrimary;
    var head, tail := snapshot[0], snapshot[1..];
    assert forall j :: 0 <= j < |tail| ==> tail[j] == snapshot[j + 1];
    forall a | 0 <= a < |h.accounts|
      ensures ToggledIn(h, snapshot, a, enabled, force, failing)
              <==> (a == head.0 && Toggles(h, head, enabled, force, failing))
                   || ToggledIn(h1, tail, a, enabled, force, failing)
    {
      if ToggledIn(h, snapshot, a, enabled, force, failing) {
        var j :| 0 <= j < |snapshot| && snapshot[j].0 == a && Toggles(h, snapshot[j], enabled, force, failing);
        if j > 0 {
          assert tail[j - 1].0 == a && Toggles(h1, tail[j - 1], enabled, force, failing);
        }
      }
      if ToggledIn(h1, tail, a, enabled, force, failing) {
        var j :| 0 <= j < |tail| && tail[j].0 == a && Toggles(h1, tail[j], enabled, force, failing);
        assert snapshot[j + 1].0 == a && Toggles(h, snapshot[j + 1], enabled, force, failing);
      }
    }
  }

  lemma PersonsCompose(h: Hub, h1: Hub, k: Hub, snapshot: seq<(AccountId, Standing)>, enabled: bool, force: bool,
                       failing: set<AccountId>)
    requires snapshot != [] && InTable(h, snapshot) && InTable(h1, snapshot[1..])
    requires OneStep(h, h1, snapshot[0], enabled, force, failing) && |k.persons| == |h.persons|
    requires forall v :: 0 <= v < |h.persons| ==>
               k.persons[v] == if PrimaryToggled(h1, snapshot[1..], v, enabled, force, failing)
                               then h1.persons[v].(status := StandingOf(enabled)) else h1.persons[v]
    ensures forall v :: 0 <= v < |h.persons| ==>
              k.persons[v] == if PrimaryToggled(h, snapshot, v, enabled, force, failing)
                              then h.persons[v].(status := StandingOf(enabled)) else h.persons[v]
  {
    hide Reaches;
    var head, tail := snapshot[0], snapshot[1..];
    assert forall j :: 0 <= j < |tail| ==> tail[j] == snapshot[j + 1];
    forall v | 0 <= v < |h.persons|
      ensures PrimaryToggled(h, snapshot, v, enabled, force, failing)
              <==> (Toggles(h, head, enabled, force, failing) && h.accounts[head.0].user == v
                    && IsPrimary(h.persons[v], h.accounts[head.0]))
                   || PrimaryToggled(h1, tail, v, enabled, force, failing)
    {
      if PrimaryToggled(h, snapshot, v, enabled, force, failing) {
        var j :| 0 <= j < |snapshot| && Toggles(h, snapshot[j], enabled, force, failing)
                 && h.accounts[snapshot[j].0].user == v && IsPrimary(h.persons[v], h.accounts[snapshot[j].0]);
        if j > 0 {
          assert snapshot[j] == tail[j - 1] && Toggles(h1, tail[j - 1], enabled, force, failing);
          assert IsPrimary(h1.persons[v], h1.accounts[tail[j - 1].0]);
        }
      }
      if PrimaryToggled(h1, tail, v, enabled, force, failing) {
        var j :| 0 <= j < |tail| && Toggles(h1, tail[j], enabled, force, failing)
                 && h1.accounts[tail[j].0].user == v && IsPrimary(h1.persons[v], h1.accounts[tail[j].0]);
        assert snapshot[j + 1] == tail[j] && Toggles(h, snapshot[j + 1], enabled, force, failing);
        assert IsPrimary(h.persons[v], h.accounts[snapshot[j + 1].0]);
      }
    }
  }
}
