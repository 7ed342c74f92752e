/** The account service as the program runs it: tables updated in place, and one connector object per directory. */
module AccountService {
  import opened Wrappers
  import opened MockDirectory
  import opened AccountModel

  class Service {
    var persons: seq<Person>
    var accounts: seq<Account>
    const providers: map<ProviderId, Provider>
    const connectors: map<ProviderId, MockProvider>

    /** Every real provider has a connector of its own. */
    ghost predicate Valid()
      reads this, connectors.Values
    {
      && WellFormed(State())
      && forall p, q :: p in connectors && q in connectors && connectors[p] == connectors[q] ==> p == q
    }

    function State(): Hub
      reads this, connectors.Values
    {
      Hub(persons, accounts, providers, map p | p in connectors :: connectors[p].users)
    }

    constructor (persons: seq<Person>, providers: map<ProviderId, Provider>, connectors: map<ProviderId, MockProvider>)
      requires forall p :: p in providers && !providers[p].isCsv ==> p in connectors
      requires forall p, q :: p in connectors && q in connectors && connectors[p] == connectors[q] ==> p == q
      ensures Valid()
      ensures State() == Hub(persons, [], providers, map p | p in connectors :: connectors[p].users)
      ensures this.providers == providers && this.connectors == connectors
    {
      this.persons, this.accounts := persons, [];
      this.providers, this.connectors := providers, connectors;
    }

    /** `ensure_primary_account`. */
    method EnsurePrimaryAccount(u: PersonId) returns (r: Option<AccountId>)
      requires Valid() && u < |persons|
      modifies this`accounts
      ensures Valid() && State() == EnsurePrimary(old(State()), u).0 && r == EnsurePrimary(old(State()), u).1
    {
      var x := persons[u];
      if x.provider !in providers || providers[x.provider].isCsv {
        return None;
      }
      r := FindAccount(accounts, x.provider, x.externalId, 0);
      var status := Mirrored(x.status);
      if r.None? {
        r := Some(|accounts|);
        accounts := accounts + [Account(u, x.provider, x.externalId, x.email, status, FromSync)];
      } else if accounts[r.value].status != DELETED {
        accounts := accounts[r.value := accounts[r.value].(user := u, username := x.email, status := status)];
      }
      assert State().directories == old(State()).directories;
    }

    /** `ensure_account_in_provider`. */
    method EnsureAccountInProvider(u: PersonId, p: ProviderId, name: string, fails: bool)
      returns (r: Result<Option<AccountId>, Error>)
      requires Valid() && u < |persons|
      modifies this`accounts, connectors.Values
      ensures Valid() && State() == EnsureIn(old(State()), u, p, name, fails).0
      ensures r == EnsureIn(old(State()), u, p, name, fails).1
    {
      if persons[u].provider == p {
        var a := EnsurePrimaryAccount(u);
        return Success(a);
      }
      var found := FindIn(accounts, u, p, 0);
      if found.Some? {
        return Success(found);
      }
      if p !in providers || providers[p].isCsv {
        return Failure(ProviderNotFound);
      }
      if !providers[p].provisionsJoiners {
        return Failure(ProvisioningDisabled);
      }
      if fails {
        return Failure(DirectoryFailed);
      }
      var created := connectors[p].CreateUser(NewUser(name, persons[u].name, None, None, true));
      if created.Failure? {
        assert State().directories == old(State()).directories;
        return Failure(UsernameTaken);
      }
      var id: AccountId := |accounts|;
      accounts := accounts + [Account(u, p, created.value.externalId, name, ACTIVE, FromAssignment)];
      r := Success(Some(id));
      assert State().directories == old(State()).directories[p := connectors[p].users];
    }

    /** `set_account_enabled`: the directory first, then the table, then the person. */
    method SetAccountEnabled(a: AccountId, enabled: bool, fails: bool) returns (r: Result<(), Error>)
      requires Valid()
      modifies this`accounts, this`persons, connectors.Values
      ensures Valid() && State() == SetAccount(old(State()), a, enabled, fails).0
      ensures r == SetAccount(old(State()), a, enabled, fails).1
    {
      hide Find;
      if a >= |accounts| {
        return Failure(AccountNotFound);
      }
      var row := accounts[a];
      if row.provider !in providers || providers[row.provider].isCsv {
        return Failure(ProviderNotFound);
      }
      if fails {
        return Failure(DirectoryFailed);
      }
      var reached := connectors[row.provider].SetUserEnabled(row.externalId, enabled);
      if reached.Failure? {
        assert State().directories == old(State()).directories;
        return Failure(DirectoryFailed);
      }
      var status := StandingOf(enabled);
      accounts := accounts[a := accounts[a].(status := status)];
      if IsPrimary(persons[row.user], row) {
        persons := persons[row.user := persons[row.user].(status := status)];
      }
      r := Success(());
      assert State().directories == old(State()).directories[row.provider := connectors[row.provider].users];
    }

    /** `set_person_enabled`: every account is tried by itself, whatever the earlier ones answered. */
    method SetPersonEnabled(u: PersonId, enabled: bool, actor: Option<PersonId>, force: bool, skip: set<ProviderId>,
                            failing: set<AccountId>) returns (r: Result<seq<ActionResult>, Error>)
      requires Valid()
      modifies this`accounts, this`persons, connectors.Values
      ensures Valid() && State() == SetPerson(old(State()), u, enabled, actor, force, skip, failing).0
      ensures r == SetPerson(old(State()), u, enabled, actor, force, skip, failing).1
    {
      if u >= |persons| {
        return Failure(UserNotFound);
      }
      if !enabled && actor == Some(u) {
        return Failure(ValidationError);
      }
      var _ := EnsurePrimaryAccount(u);
      hide SwitchAll;
      var results := SwitchAccounts(SnapshotBelow(State(), u, skip, |accounts|), enabled, force, failing);
      r := Success(results);
    }

    /** The loop of `set_person_enabled`. */
    method SwitchAccounts(snapshot: seq<(AccountId, Standing)>, enabled: bool, force: bool, failing: set<AccountId>)
      returns (results: seq<ActionResult>)
      requires Valid() && forall j :: 0 <= j < |snapshot| ==> snapshot[j].0 < |accounts|
      modifies this`accounts, this`persons, connectors.Values
      ensures Valid() && State() == SwitchAll(old(State()), snapshot, enabled, force, failing).0
      ensures results == SwitchAll(old(State()), snapshot, enabled, force, failing).1
    {
      hide Switch, SetAccount, SwitchAll;
      ghost var h := State();
      results := [];
      for i := 0 to |snapshot|
        invariant Valid() && |accounts| == |h.accounts|
        invariant SwitchAll(State(), snapshot[i..], enabled, force, failing).0
                  == SwitchAll(h, snapshot, enabled, force, failing).0
        invariant results + SwitchAll(State(), snapshot[i..], enabled, force, failing).1
                  == SwitchAll(h, snapshot, enabled, force, failing).1
      {
        var (a, status) := snapshot[i];
        assert snapshot[i..][0] == snapshot[i] && snapshot[i..][1..] == snapshot[i + 1..];
        SwitchAllStep(State(), snapshot[i..], enabled, force, failing);
        var result;
        if status == StandingOf(enabled) && !force {
          result := ActionResult(a, true, true);
        } else {
          SwitchingAsOne(State(), a, enabled, a in failing);
          var done := SetAccountEnabled(a, enabled, a in failing);
          result := ActionResult(a, done.Success?, false);
        }
        ghost var rest := SwitchAll(State(), snapshot[i + 1..], enabled, force, failing).1;
        assert results + ([result] + rest) == (results + [result]) + rest;
        results := results + [result];
      }
      assert snapshot[|snapshot|..] == [];
      NothingLeftToSwitch(State(), enabled, force, failing);
    }
  }

  lemma NothingLeftToSwitch(h: Hub, enabled: bool, force: bool, failing: set<AccountId>)
    requires WellFormed(h)
    ensures SwitchAll(h, [], enabled, force, failing) == (h, [])
  {
  }

  lemma SwitchAllStep(h: Hub, snapshot: seq<(AccountId, Standing)>, enabled: bool, force: bool, failing: set<AccountId>)
    requires WellFormed(h) && snapshot != [] && forall j :: 0 <= j < |snapshot| ==> snapshot[j].0 < |h.accounts|
    ensures var (a, status) := snapshot[0];
            var already := status == StandingOf(enabled) && !force;
            var (h1, ok) := if already then (h, true) else Switch(h, a, enabled, a in failing);
            var (k, results) := SwitchAll(h, snapshot, enabled, force, failing);
            && k == SwitchAll(h1, snapshot[1..], enabled, force, failing).0
            && results == [ActionResult(a, ok, already)] + SwitchAll(h1, snapshot[1..], enabled, force, failing).1
  {
    hide Switch;
  }

  /** Calling the service for one account does what the loop needs. */
  lemma SwitchingAsOne(h: Hub, a: AccountId, enabled: bool, fails: bool)
    requires WellFormed(h) && a < |h.accounts|
    ensures var (k, r) := SetAccount(h, a, enabled, fails);
            k == Switch(h, a, enabled, fails).0 && r.Success? == Switch(h, a, enabled, fails).1
  {
    hide Find, WithStatus;
  }
}
