/** The in-memory directory of backend/app/providers/mock.py. */
module MockDirectory {
  import opened Wrappers

  /** ACTIVE, DISABLED, DELETED, or any other status a person may carry. */
  datatype Standing = ACTIVE | DISABLED | DELETED | OTHER

  datatype DirectoryUser = DirectoryUser(externalId: string, email: string, displayName: string,
                                         department: Option<string>, jobTitle: Option<string>, status: Standing)

  datatype ProviderError = ResourceNotFound | Conflict | Unavailable

  datatype NewUser = NewUser(principalName: string, displayName: string, department: Option<string>,
                             jobTitle: Option<string>, enabled: bool)

  function StandingOf(enabled: bool): Standing { if enabled then ACTIVE else DISABLED }

  // ----- the ids the directory hands out: "user-001", "user-002", ...

  function DigitChar(d: nat): char
    requires d < 10
  {
    "0123456789"[d]
  }

  function DigitValue(c: char): nat {
    if '0' <= c <= '9' then (c as int) - ('0' as int) else 0
  }

  function Decimal(n: nat): string {
    if n < 10 then [DigitChar(n)] else Decimal(n / 10) + [DigitChar(n % 10)]
  }

  function ZeroPadded(text: string, width: nat): string
    decreases width - |text|
  {
    if |text| < width then ZeroPadded("0" + text, width) else text
  }

  /** The id of the n-th user: the number in decimal, padded to three digits. */
  function UserIdText(n: nat): string { "user-" + ZeroPadded(Decimal(n), 3) }

  function Value(text: string): nat {
    if text == "" then 0 else 10 * Value(text[..|text| - 1]) + DigitValue(text[|text| - 1])
  }

  lemma {:induction false} LeadingZeroKeepsValue(text: string)
    ensures Value("0" + text) == Value(text)
  {
    if text != "" {
      LeadingZeroKeepsValue(text[..|text| - 1]);
      assert ("0" + text)[..|text|] == "0" + text[..|text| - 1];
    } else {
      assert "0" + text == "0" && "0"[..0] == "";
    }
  }

  lemma {:induction false} PaddingKeepsValue(text: string, width: nat)
    ensures Value(ZeroPadded(text, width)) == Value(text)
    decreases width - |text|
  {
    if |text| < width {
      LeadingZeroKeepsValue(text);
      PaddingKeepsValue("0" + text, width);
    }
  }

  lemma {:induction false} DecimalReadsBack(n: nat)
    ensures Value(Decimal(n)) == n
  {
    if n < 10 {
      assert Decimal(n)[..0] == "";
    } else {
      DecimalReadsBack(n / 10);
      assert Decimal(n)[..|Decimal(n)| - 1] == Decimal(n / 10);
    }
  }

  /** Different numbers get different ids, also beyond three digits. */
  lemma IdsAreInjective(m: nat, n: nat)
    ensures UserIdText(m) == UserIdText(n) ==> m == n
  {
    DecimalReadsBack(m);
    DecimalReadsBack(n);
    PaddingKeepsValue(Decimal(m), 3);
    PaddingKeepsValue(Decimal(n), 3);
    assert UserIdText(m)[5..] == ZeroPadded(Decimal(m), 3) && UserIdText(n)[5..] == ZeroPadded(Decimal(n), 3);
  }

  // ----- what the directory's calls do to its list of users

  function LowerChar(c: char): char {
    if 'A' <= c <= 'Z' then ((c as int) + 32) as char else c
  }

  function Lower(text: string): string {
    seq(|text|, i requires 0 <= i < |text| => LowerChar(text[i]))
  }

  predicate EmailTaken(users: seq<DirectoryUser>, email: string) {
    exists i :: 0 <= i < |users| && Lower(users[i].email) == Lower(email)
  }

  /** Two letters that differ in nothing but case, or the same character. */
  predicate SameLetter(c: char, d: char) {
    || c == d
    || ('A' <= c <= 'Z' && d as int == c as int + 32)
    || ('A' <= d <= 'Z' && c as int == d as int + 32)
  }

  predicate SameButCase(a: string, b: string) {
    |a| == |b| && forall i :: 0 <= i < |a| ==> SameLetter(a[i], b[i])
  }

  lemma LowerExactly(a: string, b: string)
    ensures Lower(a) == Lower(b) <==> SameButCase(a, b)
  {
    if |a| == |b| {
      assert forall i :: 0 <= i < |a| ==> (Lower(a)[i] == Lower(b)[i] <==> SameLetter(a[i], b[i]));
    } else {
      assert |Lower(a)| == |a| && |Lower(b)| == |b|;
    }
  }

  /** An email is taken exactly when some user has it, written in any case. */
  lemma EmailTakenExactly(users: seq<DirectoryUser>, email: string)
    ensures EmailTaken(users, email) <==> exists i :: 0 <= i < |users| && SameButCase(users[i].email, email)
  {
    forall i | 0 <= i < |users|
      ensures Lower(users[i].email) == Lower(email) <==> SameButCase(users[i].email, email)
    {
      LowerExactly(users[i].email, email);
    }
  }

  /** The first user with an id. */
  function Find(users: seq<DirectoryUser>, id: string): (r: Option<nat>)
    ensures r.Some? ==> r.value < |users| && users[r.value].externalId == id
    ensures r.None? <==> forall i :: 0 <= i < |users| ==> users[i].externalId != id
    ensures r.Some? ==> forall i :: 0 <= i < r.value ==> users[i].externalId != id
  {
    FindFrom(users, id, 0)
  }

  function FindFrom(users: seq<DirectoryUser>, id: string, k: nat): (r: Option<nat>)
    requires k <= |users|
    ensures r.Some? ==> k <= r.value < |users| && users[r.value].externalId == id
    ensures r.None? <==> forall i :: k <= i < |users| ==> users[i].externalId != id
    ensures r.Some? ==> forall i :: k <= i < r.value ==> users[i].externalId != id
    decreases |users| - k
  {
    if k == |users| then None else if users[k].externalId == id then Some(k) else FindFrom(users, id, k + 1)
  }

  function WithStatus(users: seq<DirectoryUser>, id: string, status: Standing): (r: seq<DirectoryUser>)
    ensures |r| == |users|
    ensures forall i :: 0 <= i < |users| ==>
              r[i] == if Find(users, id) == Some(i) then users[i].(status := status) else users[i]
  {
    match Find(users, id)
    case None => users
    case Some(i) => users[i := users[i].(status := status)]
  }

  function Hired(users: seq<DirectoryUser>, request: NewUser): DirectoryUser {
    DirectoryUser(UserIdText(|users| + 1), request.principalName, request.displayName, request.department,
                  request.jobTitle, StandingOf(request.enabled))
  }

  /** The user has what was asked for. */
  predicate AsRequested(user: DirectoryUser, request: NewUser) {
    && user.email == request.principalName && user.displayName == request.displayName
    && user.department == request.department && user.jobTitle == request.jobTitle
    && (if request.enabled then user.status == ACTIVE else user.status == DISABLED)
  }

  /** The n-th user has the n-th id, as long as no user was ever deleted. */
  predicate Dense(users: seq<DirectoryUser>) {
    forall i :: 0 <= i < |users| ==> users[i].externalId == UserIdText(i + 1)
  }

  /** In a dense directory the next id is new and the directory stays dense. */
  lemma NextIdIsFresh(users: seq<DirectoryUser>, request: NewUser)
    requires Dense(users)
    ensures Find(users, Hired(users, request).externalId).None?
    ensures Dense(users + [Hired(users, request)])
    ensures forall i, j :: 0 <= i < |users| && 0 <= j < |users| && users[i].externalId == users[j].externalId ==> i == j
  {
    forall i | 0 <= i < |users|
      ensures users[i].externalId != Hired(users, request).externalId
    {
      IdsAreInjective(i + 1, |users| + 1);
    }
    forall i, j | 0 <= i < |users| && 0 <= j < |users| && users[i].externalId == users[j].externalId
      ensures i == j
    {
      IdsAreInjective(i + 1, j + 1);
    }
  }

  /** How the connector's constructor and calls leave its list of users while nobody is deleted. */
  predicate Kept(users: seq<DirectoryUser>) {
    Dense(users) && forall i :: 0 <= i < |users| ==> users[i].status == ACTIVE || users[i].status == DISABLED
  }

  lemma CallsKeepUsers(users: seq<DirectoryUser>, request: NewUser, id: string, enabled: bool)
    requires Kept(users)
    ensures Kept(users + [Hired(users, request)]) && Kept(WithStatus(users, id, StandingOf(enabled)))
  {
    NextIdIsFresh(users, request);
    hide UserIdText;
  }

  function Without(users: seq<DirectoryUser>, k: nat): seq<DirectoryUser>
    requires k < |users|
  {
    users[..k] + users[k + 1..]
  }

  /** The numbers in the ids of the users, whatever was deleted. */
  predicate Numbered(users: seq<DirectoryUser>, numbers: seq<nat>) {
    |numbers| == |users| && forall i :: 0 <= i < |users| ==> users[i].externalId == UserIdText(numbers[i])
  }

  /** The next id is in use exactly when some user holds the number of users plus one. */
  lemma NextIdInUseExactly(users: seq<DirectoryUser>, numbers: seq<nat>, request: NewUser)
    requires Numbered(users, numbers)
    ensures Find(users, Hired(users, request).externalId).Some? <==> (|users| + 1) in numbers
  {
    var id := Hired(users, request).externalId;
    hide UserIdText;
    forall i | 0 <= i < |users|
      ensures users[i].externalId == id <==> numbers[i] == |users| + 1
    {
      IdsAreInjective(numbers[i], |users| + 1);
    }
    if (|users| + 1) in numbers {
      var i :| 0 <= i < |numbers| && numbers[i] == |users| + 1;
      assert users[i].externalId == id;
    }
  }

  /** Ids are derived from the number of users, so after deleting user k the next user gets the id of an existing one
      exactly when a user after k remains. */
  lemma DeletingReusesIdsExactly(users: seq<DirectoryUser>, k: nat, request: NewUser)
    requires Dense(users) && k < |users|
    ensures var rest := Without(users, k);
            Find(rest, Hired(rest, request).externalId).Some? <==> k + 1 < |users|
  {
    var rest := Without(users, k);
    var id := Hired(rest, request).externalId;
    assert id == UserIdText(|users|);
    if k + 1 < |users| {
      assert rest[|rest| - 1] == users[|users| - 1];
      assert rest[|rest| - 1].externalId == id;
    } else {
      forall i | 0 <= i < |rest|
        ensures rest[i].externalId != id
      {
        IdsAreInjective(i + 1, |users|);
      }
    }
  }

  // ----- group memberships

  datatype Change = Activate | Revoke

  /** One call of `add_group_member` or `remove_group_member`. */
  datatype MemberChange = MemberChange(change: Change, group: string, user: string)

  function Members(memberships: map<string, set<string>>, group: string): set<string> {
    if group in memberships then memberships[group] else {}
  }

  /** The memberships after one call: a set add or discard, on a set that is made if there is none. */
  function WithChange(m: map<string, set<string>>, c: MemberChange): map<string, set<string>> {
    m[c.group := if c.change.Activate? then Members(m, c.group) + {c.user} else Members(m, c.group) - {c.user}]
  }

  function WithChanges(m: map<string, set<string>>, cs: seq<MemberChange>): map<string, set<string>> {
    if cs == [] then m else WithChange(WithChanges(m, cs[..|cs| - 1]), cs[|cs| - 1])
  }

  /** The last call about this user in this group. */
  function LastChange(cs: seq<MemberChange>, group: string, user: string): Option<Change> {
    if cs == [] then None
    else if cs[|cs| - 1].group == group && cs[|cs| - 1].user == user then Some(cs[|cs| - 1].change)
    else LastChange(cs[..|cs| - 1], group, user)
  }

  /** Whatever was called before, the last call about a user in a group decides whether the user is a member. */
  lemma {:induction false} LastChangeDecides(m: map<string, set<string>>, cs: seq<MemberChange>, group: string,
                                             user: string)
    ensures user in Members(WithChanges(m, cs), group)
            <==> match LastChange(cs, group, user)
                 case Some(change) => change.Activate?
                 case None => user in Members(m, group)
  {
    if cs != [] {
      LastChangeDecides(m, cs[..|cs| - 1], group, user);
    }
  }

  /** The connector object. */
  class MockProvider {
    var users: seq<DirectoryUser>
    var memberships: map<string, set<string>>

    constructor ()
      ensures Kept(users) && memberships == map["group-001" := {"user-001"}, "group-002" := {"user-002"}]
      ensures |users| == 2 && users[0].status == users[1].status == ACTIVE
    {
      FirstIds();
      users := [DirectoryUser("user-001", "jordan.lee@northstar.io", "Jordan Lee", Some("Platform Engineering"),
                              Some("Senior Cloud Engineer"), ACTIVE),
                DirectoryUser("user-002", "priya.nair@northstar.io", "Priya Nair", Some("Security"),
                              Some("Security Architect"), ACTIVE)];
      memberships := map["group-001" := {"user-001"}, "group-002" := {"user-002"}];
    }

    /** `set_user_enabled`: the first user with that id is replaced by a copy with the new status. */
    method SetUserEnabled(id: string, enabled: bool) returns (r: Result<bool, ProviderError>)
      modifies this`users
      ensures r == if Find(old(users), id).Some? then Success(true) else Failure(ResourceNotFound)
      ensures users == WithStatus(old(users), id, StandingOf(enabled)) && (old(Kept(users)) ==> Kept(users))
    {
      if Kept(users) {
        CallsKeepUsers(users, NewUser("", "", None, None, true), id, enabled);
      }
      for i := 0 to |users|
        invariant users == old(users) && forall j :: 0 <= j < i ==> users[j].externalId != id
      {
        if users[i].externalId == id {
          users := users[i := users[i].(status := StandingOf(enabled))];
          return Success(true);
        }
      }
      r := Failure(ResourceNotFound);
    }

    /** `create_user`. */
    method CreateUser(request: NewUser) returns (r: Result<DirectoryUser, ProviderError>)
      modifies this`users
      ensures if EmailTaken(old(users), request.principalName) then users == old(users) && r == Failure(Conflict)
              else users == old(users) + [Hired(old(users), request)] && r == Success(Hired(old(users), request))
      ensures r.Success? ==> AsRequested(r.value, request)
      ensures old(Kept(users)) ==> Kept(users)
    {
      if Kept(users) {
        CallsKeepUsers(users, request, "", true);
      }
      if EmailTaken(users, request.principalName) {
        return Failure(Conflict);
      }
      var user := Hired(users, request);
      users := users + [user];
      r := Success(user);
    }

    /** `delete_user`. */
    method DeleteUser(id: string) returns (r: Result<bool, ProviderError>)
      modifies this`users
      ensures users == Keeping(old(users), id)
      ensures r.Success? <==> Find(old(users), id).Some?
    {
      var before := |users|;
      KeepingShrinksExactly(users, id);
      users := Keeping(users, id);
      r := if |users| == before then Failure(ResourceNotFound) else Success(true);
    }

    /** `add_group_member`. */
    method AddGroupMember(group: string, user: string) returns (r: bool)
      modifies this`memberships
      ensures r && memberships == WithChange(old(memberships), MemberChange(Activate, group, user))
    {
      memberships := memberships[group := Members(memberships, group) + {user}];
      r := true;
    }

    /** `remove_group_member`. */
    method RemoveGroupMember(group: string, user: string) returns (r: bool)
      modifies this`memberships
      ensures r && memberships == WithChange(old(memberships), MemberChange(Revoke, group, user))
    {
      memberships := memberships[group := Members(memberships, group) - {user}];
      r := true;
    }
  }

  function Keeping(users: seq<DirectoryUser>, id: string): seq<DirectoryUser> {
    if users == [] then []
    else (if users[0].externalId != id then [users[0]] else []) + Keeping(users[1..], id)
  }

  lemma {:induction false} KeepingShrinksExactly(users: seq<DirectoryUser>, id: string)
    ensures |Keeping(users, id)| <= |users|
    ensures |Keeping(users, id)| < |users| <==> Find(users, id).Some?
  {
    if users != [] {
      KeepingShrinksExactly(users[1..], id);
      assert forall i :: 0 <= i < |users| - 1 ==> users[1..][i] == users[i + 1];
      if Find(users[1..], id).Some? {
        assert users[Find(users[1..], id).value + 1].externalId == id;
      }
    }
  }

  /** What is left after a deletion: every user with another id, as often as before. */
  lemma {:induction false} KeepingExactly(users: seq<DirectoryUser>, id: string, x: DirectoryUser)
    ensures multiset(Keeping(users, id))[x] == if x.externalId == id then 0 else multiset(users)[x]
  {
    if users != [] {
      KeepingExactly(users[1..], id, x);
      assert users == [users[0]] + users[1..];
    }
  }

  lemma Associates(a: seq<DirectoryUser>, b: seq<DirectoryUser>, c: seq<DirectoryUser>)
    ensures a + (b + c) == (a + b) + c
  {
  }

  /** A deletion keeps the order of the others: it works on every part of the list on its own. */
  lemma {:induction false} KeepingKeepsOrder(users: seq<DirectoryUser>, more: seq<DirectoryUser>, id: string)
    ensures Keeping(users + more, id) == Keeping(users, id) + Keeping(more, id)
  {
    if users == [] {
      assert users + more == more;
    } else {
      KeepingKeepsOrder(users[1..], more, id);
      assert (users + more)[0] == users[0] && (users + more)[1..] == users[1..] + more;
      var head := if users[0].externalId != id then [users[0]] else [];
      Associates(head, Keeping(users[1..], id), Keeping(more, id));
    }
  }

  lemma PaddedOnce(digit: string)
    requires |digit| == 1
    ensures ZeroPadded(digit, 3) == "0" + ("0" + digit)
  {
    assert ZeroPadded(digit, 3) == ZeroPadded("0" + digit, 3);
    assert ZeroPadded("0" + digit, 3) == ZeroPadded("0" + ("0" + digit), 3);
  }

  lemma FirstIds()
    ensures UserIdText(1) == "user-001" && UserIdText(2) == "user-002"
  {
    assert Decimal(1) == "1" && Decimal(2) == "2";
    PaddedOnce("1");
    PaddedOnce("2");
    assert "0" + ("0" + "1") == "001" && "0" + ("0" + "2") == "002";
  }
}
