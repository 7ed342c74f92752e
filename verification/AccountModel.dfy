/** One person's accounts in several directories, as functions on a hub of tables and directories:
    backend/app/services/accounts.py. */
module AccountModel {
  import opened Wrappers
  import opened MockDirectory

  type PersonId = nat
  type AccountId = nat
  type ProviderId = nat

  datatype Provider = Provider(isCsv: bool, provisionsJoiners: bool)

  /** A person row; (provider, externalId) is the identity it was synced from. */
  datatype Person = Person(provider: ProviderId, externalId: string, email: string, name: string, status: Standing)

  datatype Origin = FromSync | FromAssignment

  /** One account of a person; its status is what was last set or observed. */
  datatype Account = Account(user: PersonId, provider: ProviderId, externalId: string, username: string,
                             status: Standing, origin: Origin)

  datatype Hub = Hub(persons: seq<Person>, accounts: seq<Account>, providers: map<ProviderId, Provider>,
                     directories: map<ProviderId, seq<DirectoryUser>>)

  datatype Error =
    | UserNotFound | AccountNotFound | ProviderNotFound | ProvisioningDisabled | UsernameTaken | DirectoryFailed
    | ValidationError

  /** A real directory stands behind the provider. */
  predicate Connected(h: Hub, p: ProviderId) {
    p in h.providers && !h.providers[p].isCsv && p in h.directories
  }

  predicate WellFormed(h: Hub) {
    && (forall p :: p in h.providers && !h.providers[p].isCsv ==> p in h.directories)
    && (forall a :: 0 <= a < |h.accounts| ==> h.accounts[a].user < |h.persons|)
  }

  predicate IsPrimary(x: Person, a: Account) {
    a.provider == x.provider && a.externalId == x.externalId
  }

  /** The status a person's own account gets: an unknown status counts as active. */
  function Mirrored(status: Standing): Standing {
    if status == DISABLED then DISABLED else ACTIVE
  }

  /** The first account row from k on with this provider and external id. */
  function FindAccount(rows: seq<Account>, p: ProviderId, id: string, k: nat): (r: Option<AccountId>)
    requires k <= |rows|
    ensures r.Some? ==> k <= r.value < |rows| && rows[r.value].provider == p && rows[r.value].externalId == id
    ensures r.None? <==> forall i :: k <= i < |rows| ==> rows[i].provider != p || rows[i].externalId != id
    decreases |rows| - k
  {
    if k == |rows| then None
    else if rows[k].provider == p && rows[k].externalId == id then Some(k)
    else FindAccount(rows, p, id, k + 1)
  }

  /** The first account row from k on that a person has in a provider. */
  function FindIn(rows: seq<Account>, u: PersonId, p: ProviderId, k: nat): (r: Option<AccountId>)
    requires k <= |rows|
    ensures r.Some? ==> k <= r.value < |rows| && rows[r.value].user == u && rows[r.value].provider == p
    ensures r.Some? ==> forall i :: k <= i < r.value ==> rows[i].user != u || rows[i].provider != p
    ensures r.None? <==> forall i :: k <= i < |rows| ==> rows[i].user != u || rows[i].provider != p
    decreases |rows| - k
  {
    if k == |rows| then None
    else if rows[k].user == u && rows[k].provider == p then Some(k)
    else FindIn(rows, u, p, k + 1)
  }

  /** `ensure_primary_account`. */
  function EnsurePrimary(h: Hub, u: PersonId): (r: (Hub, Option<AccountId>))
    requires WellFormed(h) && u < |h.persons|
    ensures WellFormed(r.0) && r.0 == h.(accounts := r.0.accounts) && |h.accounts| <= |r.0.accounts|
    ensures r.1.Some? ==> r.1.value < |r.0.accounts| && IsPrimary(h.persons[u], r.0.accounts[r.1.value])
  {
    var x := h.persons[u];
    if x.provider !in h.providers || h.providers[x.provider].isCsv then (h, None)
    else
      match FindAccount(h.accounts, x.provider, x.externalId, 0)
      case None =>
        var row := Account(u, x.provider, x.externalId, x.email, Mirrored(x.status), FromSync);
        (h.(accounts := h.accounts + [row]), Some(|h.accounts|))
      case Some(a) =>
        if h.accounts[a].status == DELETED then (h, Some(a))
        else
          var row := h.accounts[a].(user := u, username := x.email, status := Mirrored(x.status));
          (h.(accounts := h.accounts[a := row]), Some(a))
  }

  /** `ensure_account_in_provider`; `name` is the username chosen for that directory, and `fails` says that the
      directory rejects the call. */
  function EnsureIn(h: Hub, u: PersonId, p: ProviderId, name: string, fails: bool)
    : (r: (Hub, Result<Option<AccountId>, Error>))
    requires WellFormed(h) && u < |h.persons|
    ensures WellFormed(r.0) && r.0.persons == h.persons && |h.accounts| <= |r.0.accounts|
  {
    var x := h.persons[u];
    if x.provider == p then
      var (h1, a) := EnsurePrimary(h, u); (h1, Success(a))
    else if FindIn(h.accounts, u, p, 0).Some? then (h, Success(FindIn(h.accounts, u, p, 0)))
    else if p !in h.providers || h.providers[p].isCsv then (h, Failure(ProviderNotFound))
    else if !h.providers[p].provisionsJoiners then (h, Failure(ProvisioningDisabled))
    else if fails then (h, Failure(DirectoryFailed))
    else if EmailTaken(h.directories[p], name) then (h, Failure(UsernameTaken))
    else
      var hired := Hired(h.directories[p], NewUser(name, x.name, None, None, true));
      var row := Account(u, p, hired.externalId, name, ACTIVE, FromAssignment);
      var created: AccountId := |h.accounts|;
      (h.(accounts := h.accounts + [row], directories := h.directories[p := h.directories[p] + [hired]]),
       Success(Some(created)))
  }

  /** Whether switching an account reaches its directory. */
  predicate Reaches(h: Hub, a: AccountId, fails: bool)
    requires a < |h.accounts|
  {
    var row := h.accounts[a];
    Connected(h, row.provider) && !fails && Find(h.directories[row.provider], row.externalId).Some?
  }

  /** `set_account_enabled`, once the account exists. */
  function Switch(h: Hub, a: AccountId, enabled: bool, fails: bool): (r: (Hub, bool))
    requires WellFormed(h) && a < |h.accounts|
    ensures WellFormed(r.0) && |r.0.accounts| == |h.accounts| && |r.0.persons| == |h.persons|
    ensures r.1 <==> Reaches(h, a, fails)
    ensures !r.1 ==> r.0 == h
  {
    if !Reaches(h, a, fails) then (h, false)
    else
      var row := h.accounts[a];
      var status := StandingOf(enabled);
      var directory := WithStatus(h.directories[row.provider], row.externalId, status);
      var person := h.persons[row.user];
      (h.(accounts := h.accounts[a := row.(status := status)],
          directories := h.directories[row.provider := directory],
          persons := if IsPrimary(person, row) then h.persons[row.user := person.(status := status)] else h.persons),
       true)
  }

  /** The accounts of a person outside the skipped providers, in table order, with their statuses. */
  function SnapshotBelow(h: Hub, u: PersonId, skip: set<ProviderId>, n: nat): (r: seq<(AccountId, Standing)>)
    requires n <= |h.accounts|
    ensures forall j :: 0 <= j < |r| ==>
              && r[j].0 < n && h.accounts[r[j].0].user == u && h.accounts[r[j].0].provider !in skip
              && r[j].1 == h.accounts[r[j].0].status
    ensures forall a :: 0 <= a < n && h.accounts[a].user == u && h.accounts[a].provider !in skip ==>
              (a, h.accounts[a].status) in r
    ensures forall i, j :: 0 <= i < j < |r| ==> r[i].0 < r[j].0
  {
    if n == 0 then []
    else
      var a := h.accounts[n - 1];
      SnapshotBelow(h, u, skip, n - 1) + (if a.user == u && a.provider !in skip then [(n - 1, a.status)] else [])
  }

  datatype ActionResult = ActionResult(account: AccountId, ok: bool, already: bool)

  /** The loop of `set_person_enabled`: every account is tried on its own, whatever happened to the others. */
  function SwitchAll(h: Hub, snapshot: seq<(AccountId, Standing)>, enabled: bool, force: bool, failing: set<AccountId>)
    : (r: (Hub, seq<ActionResult>))
    requires WellFormed(h) && forall j :: 0 <= j < |snapshot| ==> snapshot[j].0 < |h.accounts|
    ensures WellFormed(r.0) && |r.0.accounts| == |h.accounts| && |r.0.persons| == |h.persons|
    decreases |snapshot|
  {
    if snapshot == [] then (h, [])
    else
      var (a, status) := snapshot[0];
      if status == StandingOf(enabled) && !force then
        var (h2, rest) := SwitchAll(h, snapshot[1..], enabled, force, failing);
        (h2, [ActionResult(a, true, true)] + rest)
      else
        var (h1, ok) := Switch(h, a, enabled, a in failing);
        var (h2, rest) := SwitchAll(h1, snapshot[1..], enabled, force, failing);
        (h2, [ActionResult(a, ok, false)] + rest)
  }

  /** `set_person_enabled`. */
  function SetPerson(h: Hub, u: PersonId, enabled: bool, actor: Option<PersonId>, force: bool, skip: set<ProviderId>,
                     failing: set<AccountId>): (r: (Hub, Result<seq<ActionResult>, Error>))
    requires WellFormed(h)
    ensures WellFormed(r.0) && |r.0.persons| == |h.persons| && |h.accounts| <= |r.0.accounts|
  {
    if u >= |h.persons| then (h, Failure(UserNotFound))
    else if !enabled && actor == Some(u) then (h, Failure(ValidationError))
    else
      var h1 := EnsurePrimary(h, u).0;
      var (h2, results) := SwitchAll(h1, SnapshotBelow(h1, u, skip, |h1.accounts|), enabled, force, failing);
      (h2, Success(results))
  }

  /** `set_account_enabled`. */
  function SetAccount(h: Hub, a: AccountId, enabled: bool, fails: bool): (r: (Hub, Result<(), Error>))
    requires WellFormed(h)
    ensures WellFormed(r.0) && |r.0.persons| == |h.persons| && |r.0.accounts| == |h.accounts|
  {
    if a >= |h.accounts| then (h, Failure(AccountNotFound))
    else if !Connected(h, h.accounts[a].provider) then (h, Failure(ProviderNotFound))
    else
      var (h1, ok) := Switch(h, a, enabled, fails);
      (h1, if ok then Success(()) else Failure(DirectoryFailed))
  }
}
