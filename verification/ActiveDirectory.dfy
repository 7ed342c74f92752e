/** The write protocol of backend/app/providers/active_directory.py against an LDAP directory that may refuse any
    call, over a connection that may break at any call. */
module ActiveDirectory {
  import opened Wrappers
  import opened MockDirectory

  type Dn = string

  /** An external id: the object's GUID as text. */
  type Guid = string

  const NORMAL_ACCOUNT_DISABLED: bv32 := 0x202
  const NORMAL_ACCOUNT_ENABLED: bv32 := 0x200

  datatype Entry =
    | UserEntry(guid: Guid, sam: string, principalName: string, displayName: string, uac: bv32, hasPassword: bool)
    | GroupEntry(guid: Guid, name: string, members: set<Dn>)

  type Directory = map<Dn, Entry>

  datatype Code = EntryAlreadyExists | UnwillingToPerform | NoSuchAttribute | ConstraintViolation | OtherCode

  /** How a call ends: carried out; refused with a code; or with an exception because the connection broke, and then
      the directory may have carried the call out or not. */
  datatype Reply = Accepted | Refused(code: Code) | Lost(carriedOut: bool)

  predicate Took(reply: Reply) { reply.Accepted? || (reply.Lost? && reply.carriedOut) }

  datatype Error = NameConflict | NotFound | UpdateFailed(code: Code) | ConnectionLost | NotReadBack

  // ----- the account control bits

  predicate Disabled(uac: bv32) { uac & 0x2 != 0 }

  function Enabling(uac: bv32): bv32 { uac & !0x2 }

  function Disabling(uac: bv32): bv32 { uac | 0x2 }

  /** All account control bits but ACCOUNTDISABLE. */
  function OtherBits(uac: bv32): bv32 { uac & !0x2 }

  /** The status `_user_from_entry` reads. */
  function StatusOf(uac: bv32): Standing { if Disabled(uac) then DISABLED else ACTIVE }

  /** The value `set_user_enabled` writes: only the disable bit is touched. */
  function Switched(uac: bv32, enabled: bool): bv32 {
    if enabled then Enabling(uac) else Disabling(uac)
  }

  /** Reading back gives the requested status, every other bit survives, and nothing is written exactly when the
      account is in the requested state already. */
  lemma SwitchedKeepsOtherBits(uac: bv32, enabled: bool)
    ensures StatusOf(Switched(uac, enabled)) == StandingOf(enabled)
    ensures OtherBits(Switched(uac, enabled)) == OtherBits(uac)
    ensures Switched(uac, enabled) == uac <==> StatusOf(uac) == StandingOf(enabled)
  {
    hide Enabling, Disabling, Disabled, OtherBits;
    EnabledIsNotDisabled(uac);
    EnablingKeepsOthers(uac);
    EnablingWritesExactly(uac);
    DisabledIsDisabled(uac);
    DisablingKeepsOthers(uac);
    DisablingWritesExactly(uac);
  }

  lemma EnabledIsNotDisabled(x: bv32)
    ensures !Disabled(Enabling(x))
  {
  }

  lemma EnablingKeepsOthers(x: bv32)
    ensures OtherBits(Enabling(x)) == OtherBits(x)
  {
  }

  lemma EnablingWritesExactly(x: bv32)
    ensures Enabling(x) == x <==> !Disabled(x)
  {
  }

  lemma DisabledIsDisabled(x: bv32)
    ensures Disabled(Disabling(x))
  {
  }

  lemma DisablingKeepsOthers(x: bv32)
    ensures OtherBits(Disabling(x)) == OtherBits(x)
  {
  }

  lemma DisablingWritesExactly(x: bv32)
    ensures Disabling(x) == x <==> Disabled(x)
  {
  }

  // ----- names

  const FORBIDDEN := "\"/\\[]:;|=,+*?<>@"

  predicate IsForbidden(c: char) { c in FORBIDDEN }

  /** ASCII white space, as Python strips it. */
  predicate IsSpace(c: char) { c == ' ' || '\t' <= c <= '\r' || '\U{1C}' <= c <= '\U{1F}' }

  function WithoutForbidden(text: string): string {
    if text == "" then ""
    else (if IsForbidden(text[0]) then "" else [text[0]]) + WithoutForbidden(text[1..])
  }

  function TrimLeft(text: string): string {
    if text != "" && IsSpace(text[0]) then TrimLeft(text[1..]) else text
  }

  function TrimRight(text: string): string {
    if text != "" && IsSpace(text[|text| - 1]) then TrimRight(text[..|text| - 1]) else text
  }

  function Strip(text: string): string { TrimRight(TrimLeft(text)) }

  function DropDots(text: string): string {
    if text != "" && text[|text| - 1] == '.' then DropDots(text[..|text| - 1]) else text
  }

  function Clean(value: string): string { Strip(WithoutForbidden(value)) }

  function Cut(text: string): string { if |text| <= 20 then text else text[..20] }

  /** `_sam_account_name`. */
  function SamAccountName(value: string): string {
    DropDots(if Clean(value) == "" then "user" else Cut(Clean(value)))
  }

  predicate AllDots(text: string) { forall i :: 0 <= i < |text| ==> text[i] == '.' }

  lemma {:induction false} DropDotsIsPrefix(text: string)
    ensures DropDots(text) <= text
    ensures DropDots(text) == "" || DropDots(text)[|DropDots(text)| - 1] != '.'
    ensures DropDots(text) == "" <==> AllDots(text)
    ensures AllDots(text[|DropDots(text)|..])
  {
    if text != "" && text[|text| - 1] == '.' {
      DropDotsIsPrefix(text[..|text| - 1]);
      assert AllDots(text) <==> AllDots(text[..|text| - 1]);
      var k := |DropDots(text)|;
      assert text[k..] == text[..|text| - 1][k..] + ['.'];
    }
  }

  /** Exactly the forbidden characters are dropped, every other one stays as often as it was. */
  lemma {:induction false} WithoutForbiddenExactly(text: string, c: char)
    ensures multiset(WithoutForbidden(text))[c] == if IsForbidden(c) then 0 else multiset(text)[c]
  {
    hide IsForbidden;
    if text != "" {
      WithoutForbiddenExactly(text[1..], c);
      assert text == [text[0]] + text[1..];
    }
  }

  lemma Associates(a: string, b: string, c: string)
    ensures a + (b + c) == (a + b) + c
  {
  }

  /** And they stay in order: dropping works on every part of the text on its own. */
  lemma {:induction false} WithoutForbiddenKeepsOrder(a: string, b: string)
    ensures WithoutForbidden(a + b) == WithoutForbidden(a) + WithoutForbidden(b)
  {
    hide IsForbidden;
    if a == "" {
      assert a + b == b;
    } else {
      WithoutForbiddenKeepsOrder(a[1..], b);
      assert (a + b)[0] == a[0] && (a + b)[1..] == a[1..] + b;
      var head := if IsForbidden(a[0]) then "" else [a[0]];
      Associates(head, WithoutForbidden(a[1..]), WithoutForbidden(b));
    }
  }

  lemma WithoutForbiddenIsLegal(text: string)
    ensures forall i :: 0 <= i < |WithoutForbidden(text)| ==> !IsForbidden(WithoutForbidden(text)[i])
  {
    var bare := WithoutForbidden(text);
    forall i | 0 <= i < |bare|
      ensures !IsForbidden(bare[i])
    {
      WithoutForbiddenExactly(text, bare[i]);
      assert bare[i] in multiset(bare);
    }
  }

  predicate AllSpace(text: string) { forall i :: 0 <= i < |text| ==> IsSpace(text[i]) }

  lemma {:induction false} TrimLeftExactly(text: string)
    ensures |TrimLeft(text)| <= |text|
    ensures var i := |text| - |TrimLeft(text)|; TrimLeft(text) == text[i..] && AllSpace(text[..i])
    ensures TrimLeft(text) == "" || !IsSpace(TrimLeft(text)[0])
  {
    hide IsSpace;
    if text != "" && IsSpace(text[0]) {
      TrimLeftExactly(text[1..]);
      var i := |text| - |TrimLeft(text)|;
      assert text[..i] == [text[0]] + text[1..][..i - 1];
    }
  }

  lemma {:induction false} TrimRightExactly(text: string)
    ensures TrimRight(text) <= text && AllSpace(text[|TrimRight(text)|..])
    ensures TrimRight(text) == "" || !IsSpace(TrimRight(text)[|TrimRight(text)| - 1])
  {
    hide IsSpace;
    if text != "" && IsSpace(text[|text| - 1]) {
      var n := |text| - 1;
      TrimRightExactly(text[..n]);
      var k := |TrimRight(text)|;
      assert text[k..] == text[..n][k..] + [text[n]];
    }
  }

  /** Stripping takes the white space off both ends and nothing else. */
  lemma StripExactly(text: string) returns (i: nat, j: nat)
    ensures i <= j <= |text| && Strip(text) == text[i..j] && AllSpace(text[..i]) && AllSpace(text[j..])
    ensures Strip(text) == "" || (!IsSpace(text[i]) && !IsSpace(text[j - 1]))
  {
    hide IsSpace, TrimLeft, TrimRight;
    TrimLeftExactly(text);
    i := |text| - |TrimLeft(text)|;
    TrimRightExactly(TrimLeft(text));
    j := i + |Strip(text)|;
    assert text[j..] == text[i..][|Strip(text)|..];
  }

  lemma CleanIsLegal(value: string)
    ensures forall i :: 0 <= i < |Clean(value)| ==> !IsForbidden(Clean(value)[i])
  {
    WithoutForbiddenIsLegal(value);
    var i, j := StripExactly(WithoutForbidden(value));
    hide WithoutForbidden, Strip, IsForbidden, IsSpace, AllSpace;
  }

  lemma FallbackIsLegal()
    ensures DropDots("user") == "user" && forall i :: 0 <= i < |"user"| ==> !IsForbidden("user"[i])
  {
    assert "user"[3] != '.';
  }

  /** An account name has at most 20 characters, none of them forbidden, and does not end in a dot. Of the cleaned
      value it is as much as fits, less the dots at the end of that; it is "user" when nothing is left after cleaning,
      and it is empty exactly when nothing but dots is left, for then the fallback is skipped and the dots go. */
  lemma SamAccountNameIsLegal(value: string)
    ensures var sam := SamAccountName(value); var clean := Clean(value); var n := if |clean| <= 20 then |clean| else 20;
            && |sam| <= 20 && (forall i :: 0 <= i < |sam| ==> !IsForbidden(sam[i]))
            && (sam == "" || sam[|sam| - 1] != '.')
            && (clean == "" ==> sam == "user")
            && (clean != "" ==> |sam| <= n && sam <= clean && AllDots(clean[|sam|..n]))
            && (sam == "" <==> clean != "" && AllDots(clean[..n]))
  {
    hide WithoutForbidden, Strip, DropDots, IsForbidden, Clean;
    CleanIsLegal(value);
    FallbackIsLegal();
    DropDotsIsPrefix(if Clean(value) == "" then "user" else Cut(Clean(value)));
  }

  // ----- creating a user, call by call

  datatype Request = Request(displayName: string, principalName: string, nickname: string, enabled: bool)

  /** How the search for a conflict ends: answered; refused, which looks like no conflict; or with an exception. */
  datatype LookUp = Answered | Unanswered | Broken

  /** How the calls of one creation end, as far as the directory's own rules leave it open. The read-back fails when the
      connection breaks or nothing is found. */
  datatype Replies = Replies(lookUp: LookUp, add: Reply, password: Reply, enable: Reply, cleanUp: Reply,
                             readBackFails: bool)

  function UserDn(r: Request, base: string): Dn {
    var name := Strip(r.displayName);
    "CN=" + (if name == "" then SamAccountName(r.nickname) else name) + ",CN=Users," + base
  }

  /** Some user has the account name or the principal name already. */
  predicate NameTaken(d: Directory, sam: string, principalName: string) {
    exists dn :: dn in d && d[dn].UserEntry?
      && (Lower(d[dn].sam) == Lower(sam) || Lower(d[dn].principalName) == Lower(principalName))
  }

  function NewEntry(r: Request, guid: Guid): Entry {
    UserEntry(guid, SamAccountName(r.nickname), r.principalName, r.displayName, NORMAL_ACCOUNT_DISABLED, false)
  }

  /** Every state of the directory after a call that was carried out, and how the creation ends. */
  datatype Creation = Creation(states: seq<Directory>, result: Result<Standing, Error>) {
    function After(d: Directory): Creation { Creation([d] + states, result) }
  }

  function Fails(e: Error): Creation { Creation([], Failure(e)) }

  predicate FindsConflict(d: Directory, r: Request, on: Replies) {
    on.lookUp.Answered? && NameTaken(d, SamAccountName(r.nickname), r.principalName)
  }

  /** The reply to the add: the directory refuses a second object in the same place by itself. */
  function AddReply(d: Directory, dn: Dn, on: Replies): Reply {
    if dn !in d then on.add else if on.add.Lost? then Lost(false) else Refused(EntryAlreadyExists)
  }

  /** `create_user`, call by call. */
  function CreateUser(d: Directory, r: Request, base: string, guid: Guid, on: Replies): Creation {
    var dn := UserDn(r, base);
    var added := d[dn := NewEntry(r, guid)];
    if on.lookUp.Broken? then Fails(ConnectionLost)
    else if FindsConflict(d, r, on) then Fails(NameConflict)
    else
      match AddReply(d, dn, on)
      case Refused(code) => Fails(if code.EntryAlreadyExists? then NameConflict else UpdateFailed(code))
      case Lost(done) => if done then Fails(ConnectionLost).After(added) else Fails(ConnectionLost)
      case Accepted => SetPassword(added, dn, r, on).After(added)
  }

  function SetPassword(d: Directory, dn: Dn, r: Request, on: Replies): Creation
    requires dn in d && d[dn].UserEntry?
  {
    var given := d[dn := d[dn].(hasPassword := true)];
    match on.password
    case Refused(code) => CleanUp(d, dn, code, on)
    case Lost(done) => if done then Fails(ConnectionLost).After(given) else Fails(ConnectionLost)
    case Accepted => Enable(given, dn, r, on).After(given)
  }

  function Enable(d: Directory, dn: Dn, r: Request, on: Replies): Creation
    requires dn in d && d[dn].UserEntry?
  {
    var enabled := d[dn := d[dn].(uac := NORMAL_ACCOUNT_ENABLED)];
    if !r.enabled then ReadBack(d, dn, on)
    else
      match on.enable
      case Refused(code) => CleanUp(d, dn, code, on)
      case Lost(done) => if done then Fails(ConnectionLost).After(enabled) else Fails(ConnectionLost)
      case Accepted => ReadBack(enabled, dn, on).After(enabled)
  }

  function ReadBack(d: Directory, dn: Dn, on: Replies): Creation
    requires dn in d && d[dn].UserEntry?
  {
    if on.readBackFails then Fails(NotReadBack) else Creation([], Success(StatusOf(d[dn].uac)))
  }

  /** Only a refusal is followed by the clean-up; an exception passes it by. */
  function CleanUp(d: Directory, dn: Dn, code: Code, on: Replies): Creation {
    var failed := Fails(if on.cleanUp.Lost? then ConnectionLost else UpdateFailed(code));
    if Took(on.cleanUp) then failed.After(d - {dn}) else failed
  }

  function Final(d: Directory, c: Creation): Directory {
    if c.states == [] then d else c.states[|c.states| - 1]
  }

  /** In no state along the way is the new account enabled without a password, and no other object is touched. */
  lemma NeverEnabledWithoutPassword(d: Directory, r: Request, base: string, guid: Guid, on: Replies, i: nat)
    requires i < |CreateUser(d, r, base, guid, on).states|
    ensures var state := CreateUser(d, r, base, guid, on).states[i]; var dn := UserDn(r, base);
            && state - {dn} == d - {dn}
            && (dn in state ==> state[dn].UserEntry? && (!Disabled(state[dn].uac) ==> state[dn].hasPassword))
  {
    hide NameTaken, UserDn, SamAccountName;
    var dn := UserDn(r, base);
    assert Disabled(NewEntry(r, guid).uac);
    hide Disabled;
  }

  /** The object comes to be in the directory. */
  predicate Adds(d: Directory, r: Request, base: string, on: Replies) {
    !on.lookUp.Broken? && !FindsConflict(d, r, on) && UserDn(r, base) !in d && Took(on.add)
  }

  /** The creation fails after the add on an answer of the directory, so it tries to clean up. */
  predicate TriesToCleanUp(r: Request, on: Replies) {
    on.add.Accepted? && (on.password.Refused? || (on.password.Accepted? && r.enabled && on.enable.Refused?))
  }

  /** A failing creation leaves the directory as it was, except exactly when the object had been added and was not
      cleaned up: the clean-up was refused, or it was never tried because the connection broke or the read-back failed.
      What is left behind is a disabled account, unless that happened when it was being enabled or read back. */
  lemma FailureLeavesNothingExactly(d: Directory, r: Request, base: string, guid: Guid, on: Replies)
    ensures var c := CreateUser(d, r, base, guid, on); var dn := UserDn(r, base);
            c.result.Failure? ==>
              && (Final(d, c) != d <==> Adds(d, r, base, on) && !(TriesToCleanUp(r, on) && Took(on.cleanUp)))
              && (Final(d, c) != d ==>
                    && dn in Final(d, c) && Final(d, c)[dn].UserEntry?
                    && (!Disabled(Final(d, c)[dn].uac) ==>
                          r.enabled && on.password.Accepted? && (on.enable.Lost? || on.readBackFails)))
  {
    hide NameTaken, UserDn, SamAccountName;
    var c := CreateUser(d, r, base, guid, on);
    var dn := UserDn(r, base);
    assert Disabled(NORMAL_ACCOUNT_DISABLED);
    hide Disabled;
    if c.result.Failure? && Adds(d, r, base, on) {
      if TriesToCleanUp(r, on) && Took(on.cleanUp) {
        assert Final(d, c) == d;
      } else {
        assert dn in Final(d, c) && dn !in d;
      }
    }
  }

  /** A creation that succeeds adds exactly one object, under the display name (or else the account name) among the
      users of the base, with the names asked for and a password, and reads back ACTIVE exactly when that was asked for.
      It succeeds exactly when no conflict is found, its place is free, every call it makes is accepted and
      it is read back; a search that was refused finds no conflict. */
  lemma SuccessReadsBackAsRequested(d: Directory, r: Request, base: string, guid: Guid, on: Replies)
    ensures var c := CreateUser(d, r, base, guid, on); var dn := UserDn(r, base);
            && (c.result.Success? <==> && Adds(d, r, base, on) && on.add.Accepted? && on.password.Accepted?
                                       && (r.enabled ==> on.enable.Accepted?) && !on.readBackFails)
            && (c.result.Success? ==>
                  && (var name := if Strip(r.displayName) == "" then SamAccountName(r.nickname)
                                  else Strip(r.displayName);
                      dn == "CN=" + name + ",CN=Users," + base)
                  && Final(d, c) == d[dn := UserEntry(guid, SamAccountName(r.nickname), r.principalName, r.displayName,
                                                      if r.enabled then 0x200 else 0x202, true)]
                  && c.result.value == StatusOf(Final(d, c)[dn].uac) == StandingOf(r.enabled))
  {
    hide NameTaken, SamAccountName, Strip;
    assert !Disabled(NORMAL_ACCOUNT_ENABLED) && Disabled(NORMAL_ACCOUNT_DISABLED);
    hide Disabled;
  }

  /** Why a creation fails, told by its error: a conflict that was found or that the directory sees by itself, a
      connection that broke at one of the calls made, an object that is not found again, or the code a call was refused
      with. */
  lemma FailureTellsWhy(d: Directory, r: Request, base: string, guid: Guid, on: Replies)
    ensures var result := CreateUser(d, r, base, guid, on).result; var place := UserDn(r, base) in d;
            var asked := !on.lookUp.Broken? && !FindsConflict(d, r, on);
            var added := asked && !place && on.add.Accepted?; var given := added && on.password.Accepted?;
            && (result == Failure(NameConflict) <==>
                  || FindsConflict(d, r, on)
                  || (asked && (if place then !on.add.Lost? else on.add == Refused(EntryAlreadyExists))))
            && (result == Failure(ConnectionLost) <==>
                  || on.lookUp.Broken? || (asked && on.add.Lost?) || (added && on.password.Lost?)
                  || (given && r.enabled && on.enable.Lost?)
                  || (added && TriesToCleanUp(r, on) && on.cleanUp.Lost?))
            && (result == Failure(NotReadBack) <==> given && (r.enabled ==> on.enable.Accepted?) && on.readBackFails)
            && (forall code :: result == Failure(UpdateFailed(code)) <==>
                  || (asked && !place && on.add == Refused(code) && code != EntryAlreadyExists)
                  || (added && !on.cleanUp.Lost? &&
                        (on.password == Refused(code) || (given && r.enabled && on.enable == Refused(code)))))
  {
    hide NameTaken, UserDn, SamAccountName;
  }

  /** No two users have the same account name or the same principal name, whatever the case of the letters. */
  predicate UniqueNames(d: Directory) {
    forall x, y :: x in d && y in d && d[x].UserEntry? && d[y].UserEntry? && x != y ==>
      !SameButCase(d[x].sam, d[y].sam) && !SameButCase(d[x].principalName, d[y].principalName)
  }

  lemma NameTakenExactly(d: Directory, sam: string, principalName: string)
    ensures NameTaken(d, sam, principalName) <==>
              exists dn :: dn in d && d[dn].UserEntry?
                           && (SameButCase(d[dn].sam, sam) || SameButCase(d[dn].principalName, principalName))
  {
    hide Lower, SameButCase;
    forall dn | dn in d && d[dn].UserEntry?
      ensures Lower(d[dn].sam) == Lower(sam) <==> SameButCase(d[dn].sam, sam)
      ensures Lower(d[dn].principalName) == Lower(principalName) <==> SameButCase(d[dn].principalName, principalName)
    {
      LowerExactly(d[dn].sam, sam);
      LowerExactly(d[dn].principalName, principalName);
    }
  }

  lemma CaseIsSymmetric(a: string, b: string)
    ensures SameButCase(a, b) <==> SameButCase(b, a)
  {
  }

  /** Names stay unique exactly when what is left in the end is not a user whose names somebody had: so always when the
      search for a conflict was answered, and never when it was refused and a user with a taken name was created. */
  lemma NamesStayUniqueExactly(d: Directory, r: Request, base: string, guid: Guid, on: Replies)
    requires UniqueNames(d)
    ensures var c := CreateUser(d, r, base, guid, on);
            var taken := NameTaken(d, SamAccountName(r.nickname), r.principalName);
            && (UniqueNames(Final(d, c)) <==> Final(d, c) == d || !taken)
            && (on.lookUp.Answered? ==> UniqueNames(Final(d, c)))
  {
    var c := CreateUser(d, r, base, guid, on);
    var dn := UserDn(r, base);
    var sam := SamAccountName(r.nickname);
    NameTakenExactly(d, sam, r.principalName);
    LeftBehind(d, r, base, guid, on);
    hide UserDn, SamAccountName, SameButCase, NameTaken, CreateUser, Final;
    if Final(d, c) != d {
      var e := Final(d, c);
      forall x | x in d && d[x].UserEntry?
        ensures SameButCase(d[x].sam, sam) <==> SameButCase(sam, d[x].sam)
        ensures SameButCase(d[x].principalName, r.principalName) <==> SameButCase(r.principalName, d[x].principalName)
      {
        CaseIsSymmetric(d[x].sam, sam);
        CaseIsSymmetric(d[x].principalName, r.principalName);
      }
      assert forall x :: x in d ==> x in e && e[x] == d[x] && x != dn;
    }
  }

  /** What a creation leaves in the end, if anything: one more user with the names asked for. */
  lemma LeftBehind(d: Directory, r: Request, base: string, guid: Guid, on: Replies)
    ensures var e := Final(d, CreateUser(d, r, base, guid, on)); var dn := UserDn(r, base);
            e != d ==>
              && !FindsConflict(d, r, on) && dn !in d && dn in e && e == d[dn := e[dn]] && e[dn].UserEntry?
              && e[dn].sam == SamAccountName(r.nickname) && e[dn].principalName == r.principalName
              && e[dn].displayName == r.displayName && e[dn].guid == guid
  {
    hide NameTaken, UserDn, SamAccountName;
    var dn := UserDn(r, base);
    assert dn !in d ==> d[dn := NewEntry(r, guid)] - {dn} == d;
  }

  // ----- group membership

  predicate UniqueGuids(d: Directory) {
    forall x, y :: x in d && y in d && d[x].guid == d[y].guid ==> x == y
  }

  /** How the directory meets a change of the member attribute: the code of its choice for a redundant removal, and
      its reply to a needed change. A connection can break on either. */
  datatype Answer = Answer(redundantRemoval: Code, reply: Reply)

  predicate Redundant(members: set<Dn>, user: Dn, change: Change) {
    if change.Activate? then user in members else user !in members
  }

  function Changed(members: set<Dn>, user: Dn, change: Change): set<Dn> {
    if change.Activate? then members + {user} else members - {user}
  }

  function ModifyReply(members: set<Dn>, user: Dn, change: Change, answer: Answer): Reply {
    if Redundant(members, user, change) && !answer.reply.Lost? then
      Refused(if change.Activate? then EntryAlreadyExists else answer.redundantRemoval)
    else answer.reply
  }

  /** The codes the connector takes for "already in the desired state". */
  predicate CountsAsDone(code: Code, change: Change) {
    if change.Activate? then code.EntryAlreadyExists? else code.UnwillingToPerform? || code.NoSuchAttribute?
  }

  function WithMembers(d: Directory, group: Dn, members: set<Dn>): Directory
    requires group in d && d[group].GroupEntry?
  {
    d[group := d[group].(members := members)]
  }

  /** `add_group_member` and `remove_group_member`, on a group and user that were found. */
  function ChangeMember(d: Directory, group: Dn, user: Dn, change: Change, answer: Answer)
    : (Directory, Result<bool, Error>)
    requires group in d && d[group].GroupEntry?
  {
    var members := d[group].members;
    var changed := WithMembers(d, group, Changed(members, user, change));
    match ModifyReply(members, user, change, answer)
    case Accepted => (changed, Success(true))
    case Refused(code) => (d, if CountsAsDone(code, change) then Success(true) else Failure(UpdateFailed(code)))
    case Lost(done) => (if done then changed else d, Failure(ConnectionLost))
  }

  /** A removal of somebody who is not a member is answered with one of the two known codes. */
  predicate Conventional(answer: Answer) {
    answer.redundantRemoval == UnwillingToPerform || answer.redundantRemoval == NoSuchAttribute
  }

  /** A refusal is not told with a code that means "already done": that the entry exists, when adding; that the
      directory is unwilling or the attribute is not there, when removing. */
  predicate Honest(answer: Answer, change: Change) {
    answer.reply.Refused? ==>
      if change.Activate? then answer.reply.code != EntryAlreadyExists
      else answer.reply.code != UnwillingToPerform && answer.reply.code != NoSuchAttribute
  }

  /** What each outcome of a change says about the membership, exactly. A reported success means it is as asked for,
      unless a needed change was refused with a code that means "already done"; a reported refusal means nothing
      changed; only a broken connection leaves the caller in the dark. */
  lemma ChangeMemberExactly(d: Directory, group: Dn, user: Dn, change: Change, answer: Answer)
    requires group in d && d[group].GroupEntry? && Conventional(answer)
    ensures var (d1, r) := ChangeMember(d, group, user, change, answer); var members := d[group].members;
            var asked := WithMembers(d, group, Changed(members, user, change));
            && (asked == d <==> Redundant(members, user, change))
            && (d1 == asked <==> Redundant(members, user, change) || Took(answer.reply))
            && (d1 != asked ==> d1 == d)
            && (r == Failure(ConnectionLost) <==> answer.reply.Lost?)
            && (r.Failure? <==> answer.reply.Lost? || (!Redundant(members, user, change) && answer.reply.Refused?
                                                       && Honest(answer, change)))
            && (r.Success? ==> r.value)
            && (r.Failure? && answer.reply.Refused? ==> r.error == UpdateFailed(answer.reply.code))
  {
    var members := d[group].members;
    if Redundant(members, user, change) {
      assert Changed(members, user, change) == members;
      assert WithMembers(d, group, members) == d;
    } else {
      assert Changed(members, user, change) != members by {
        assert user in Changed(members, user, change) <==> user !in members;
      }
    }
  }

  /** A change of the membership of a user in a group, at their places in the directory. */
  datatype Op = Op(change: Change, group: Dn, user: Dn, answer: Answer)

  predicate Applies(d: Directory, op: Op) {
    && op.group in d && d[op.group].GroupEntry? && op.user in d && d[op.user].UserEntry?
    && Conventional(op.answer) && Honest(op.answer, op.change)
  }

  predicate AllApply(d: Directory, ops: seq<Op>) {
    forall i :: 0 <= i < |ops| ==> Applies(d, ops[i])
  }

  /** The same membership on both sides: a user is a member in the in-memory directory exactly when it is here. */
  predicate SameMembers(d: Directory, m: map<string, set<string>>) {
    forall g, u :: g in d && d[g].GroupEntry? && u in d && d[u].UserEntry? ==>
      (d[u].guid in Members(m, d[g].guid) <==> u in d[g].members)
  }

  /** Ids, kinds and names are not touched by changes of membership. */
  predicate SameObjects(d: Directory, e: Directory) {
    && e.Keys == d.Keys
    && forall x :: x in d ==> e[x].guid == d[x].guid && e[x].UserEntry? == d[x].UserEntry?
  }

  lemma MembersOnly(d: Directory, e: Directory, op: Op)
    requires SameObjects(d, e) && Applies(d, op)
    ensures Applies(e, op) && SameObjects(d, ChangeMember(e, op.group, op.user, op.change, op.answer).0)
  {
  }

  /** A run of changes on this connector: the final directory and what each change answered. */
  function RunHere(d: Directory, ops: seq<Op>): (r: (Directory, seq<Result<bool, Error>>))
    requires AllApply(d, ops)
    ensures SameObjects(d, r.0) && |r.1| == |ops|
  {
    if ops == [] then (d, [])
    else
      var n := |ops| - 1;
      var (e, answers) := RunHere(d, ops[..n]);
      assert Applies(d, ops[n]);
      MembersOnly(d, e, ops[n]);
      var (e1, r) := ChangeMember(e, ops[n].group, ops[n].user, ops[n].change, ops[n].answer);
      (e1, answers + [r])
  }

  /** The call of the in-memory directory for a change. */
  function CallFor(d: Directory, op: Op): MemberChange
    requires Applies(d, op)
  {
    MemberChange(op.change, d[op.group].guid, d[op.user].guid)
  }

  /** The calls for the changes that were not refused: reported as a success, or carried out when the connection
      broke. */
  function Carried(d: Directory, ops: seq<Op>, answers: seq<Result<bool, Error>>): seq<MemberChange>
    requires AllApply(d, ops) && |answers| == |ops|
  {
    if ops == [] then []
    else
      var n := |ops| - 1;
      assert Applies(d, ops[n]);
      Carried(d, ops[..n], answers[..n])
      + (if answers[n].Success? || Took(ops[n].answer.reply) then [CallFor(d, ops[n])] else [])
  }

  lemma StepSimulates(d: Directory, m: map<string, set<string>>, op: Op)
    requires UniqueGuids(d) && SameMembers(d, m) && Applies(d, op)
    ensures var (d1, r) := ChangeMember(d, op.group, op.user, op.change, op.answer);
            var m1 := if r.Success? || Took(op.answer.reply) then WithChange(m, CallFor(d, op)) else m;
            SameMembers(d1, m1) && (op.answer.reply.Accepted? ==> r == Success(true))
  {
    ChangeMemberExactly(d, op.group, op.user, op.change, op.answer);
    var (d1, r) := ChangeMember(d, op.group, op.user, op.change, op.answer);
    var m1 := if r.Success? || Took(op.answer.reply) then WithChange(m, CallFor(d, op)) else m;
    forall g, u | g in d1 && d1[g].GroupEntry? && u in d1 && d1[u].UserEntry?
      ensures d1[u].guid in Members(m1, d1[g].guid) <==> u in d1[g].members
    {
      assert d[u].guid in Members(m, d[g].guid) <==> u in d[g].members;
    }
  }

  /** For every sequence of activations and revocations, answered in any conventional and honest way over a connection
      that may break, this connector ends with the memberships the in-memory directory has after the changes that were
      not refused; and every change returns True when all are accepted. */
  lemma {:induction false} MembershipSimulatesMock(d: Directory, m: map<string, set<string>>, ops: seq<Op>)
    requires UniqueGuids(d) && SameMembers(d, m) && AllApply(d, ops)
    ensures var (e, answers) := RunHere(d, ops);
            && UniqueGuids(e) && SameMembers(e, WithChanges(m, Carried(d, ops, answers)))
            && ((forall i :: 0 <= i < |ops| ==> ops[i].answer.reply.Accepted?) ==>
                  forall i :: 0 <= i < |ops| ==> answers[i] == Success(true))
  {
    hide SameMembers, ChangeMember, CallFor;
    if ops != [] {
      var n := |ops| - 1;
      MembershipSimulatesMock(d, m, ops[..n]);
      var (e, answers) := RunHere(d, ops[..n]);
      OneMoreChange(d, ops, m);
      hide RunHere, Carried, WithChanges;
      assert Applies(d, ops[n]);
      MembersOnly(d, e, ops[n]);
      SameCall(d, e, ops[n]);
      StepSimulates(e, WithChanges(m, Carried(d, ops[..n], answers)), ops[n]);
    }
  }

  /** How a run and the calls it carries grow by one change. */
  lemma OneMoreChange(d: Directory, ops: seq<Op>, m: map<string, set<string>>)
    requires ops != [] && AllApply(d, ops)
    ensures var n := |ops| - 1; var op := ops[n];
            var (e, answers) := RunHere(d, ops[..n]); var told := Carried(d, ops[..n], answers);
            && Applies(d, op) && Applies(e, op)
            && var (e1, r) := ChangeMember(e, op.group, op.user, op.change, op.answer);
               && RunHere(d, ops) == (e1, answers + [r])
               && WithChanges(m, Carried(d, ops, answers + [r]))
                  == if r.Success? || Took(op.answer.reply) then WithChange(WithChanges(m, told), CallFor(d, op))
                     else WithChanges(m, told)
  {
    hide ChangeMember, CallFor;
    var n := |ops| - 1;
    var (e, answers) := RunHere(d, ops[..n]);
    assert Applies(d, ops[n]);
    MembersOnly(d, e, ops[n]);
    var r := ChangeMember(e, ops[n].group, ops[n].user, ops[n].change, ops[n].answer).1;
    assert (answers + [r])[..n] == answers;
    var told := Carried(d, ops[..n], answers);
    var call := CallFor(d, ops[n]);
    assert (told + [call])[..|told|] == told;
    assert told + [] == told;
  }

  lemma SameCall(d: Directory, e: Directory, op: Op)
    requires SameObjects(d, e) && Applies(d, op) && Applies(e, op)
    ensures CallFor(e, op) == CallFor(d, op)
  {
  }

  /** Who is a member in the end: for every user and group of the directory the last change that was not refused
      decides, and without one the membership is what it was. */
  lemma LastChangeDecidesMembership(d: Directory, ops: seq<Op>, group: Dn, user: Dn)
    requires UniqueGuids(d) && AllApply(d, ops)
    requires group in d && d[group].GroupEntry? && user in d && d[user].UserEntry?
    ensures var (e, answers) := RunHere(d, ops);
            user in e[group].members
            <==> match LastChange(Carried(d, ops, answers), d[group].guid, d[user].guid)
                 case Some(change) => change.Activate?
                 case None => user in d[group].members
  {
    hide Carried, WithChanges, LastChange;
    var m := MembershipOf(d);
    MembershipSimulatesMock(d, m, ops);
    var (e, answers) := RunHere(d, ops);
    LastChangeDecides(m, Carried(d, ops, answers), d[group].guid, d[user].guid);
    assert e[user].guid in Members(WithChanges(m, Carried(d, ops, answers)), e[group].guid)
           <==> user in e[group].members;
  }

  /** The memberships of a directory as the in-memory directory keeps them. */
  lemma MembershipOf(d: Directory) returns (m: map<string, set<string>>)
    requires UniqueGuids(d)
    ensures SameMembers(d, m)
  {
    m := map g | g in d :: d[g].guid := set u | u in d && d[g].GroupEntry? && u in d[g].members :: d[u].guid;
  }

  // ----- the connector, call by call

  /** A bound LDAP connection: the directory behind it, and every state an accepted call has left it in. */
  class Connection {
    var entries: Directory
    ghost var history: seq<Directory>

    constructor (entries: Directory)
      ensures this.entries == entries && history == []
    {
      this.entries, this.history := entries, [];
    }

    /** The outcome of a call, and the state it leaves if it was carried out. */
    ghost predicate Ends(was: Directory, before: seq<Directory>, next: Directory, reply: Reply)
      reads this
    {
      if Took(reply) then entries == next && history == before + [next] else entries == was && history == before
    }

    method Commit(next: Directory, reply: Reply)
      modifies this
      ensures Ends(old(entries), old(history), next, reply)
    {
      if Took(reply) {
        entries := next;
        history := history + [entries];
      }
    }

    method Add(dn: Dn, e: Entry, reply: Reply) returns (r: Reply)
      modifies this
      ensures dn !in old(entries) ==> r == reply && Ends(old(entries), old(history), old(entries)[dn := e], r)
      ensures dn in old(entries) ==>
                && r == (if reply.Lost? then Lost(false) else Refused(EntryAlreadyExists))
                && entries == old(entries) && history == old(history)
    {
      if dn in entries {
        return if reply.Lost? then Lost(false) else Refused(EntryAlreadyExists);
      }
      r := reply;
      Commit(entries[dn := e], reply);
    }

    /** Replaces the entry at dn, unless the directory refuses. */
    method Modify(dn: Dn, e: Entry, reply: Reply)
      requires dn in entries
      modifies this
      ensures Ends(old(entries), old(history), old(entries)[dn := e], reply)
    {
      Commit(entries[dn := e], reply);
    }

    method Delete(dn: Dn, reply: Reply)
      requires dn in entries
      modifies this
      ensures Ends(old(entries), old(history), old(entries) - {dn}, reply)
    {
      Commit(entries - {dn}, reply);
    }
  }

  /** `create_user`: added disabled and without a password, given a password, and only then enabled; when a call after
      the add is refused, the object is deleted again, and when the connection breaks nothing more is called. */
  method ProvisionUser(c: Connection, r: Request, base: string, guid: Guid, on: Replies)
    returns (result: Result<Standing, Error>)
    modifies c
    ensures var creation := CreateUser(old(c.entries), r, base, guid, on);
            && result == creation.result && c.history == old(c.history) + creation.states
            && c.entries == Final(old(c.entries), creation)
  {
    hide NameTaken, SamAccountName, UserDn;
    if on.lookUp.Broken? {
      return Failure(ConnectionLost);
    }
    if on.lookUp.Answered? && NameTaken(c.entries, SamAccountName(r.nickname), r.principalName) {
      return Failure(NameConflict);
    }
    var dn := UserDn(r, base);
    var added := c.Add(dn, NewEntry(r, guid), on.add);
    match added {
      case Refused(code) =>
        return Failure(if code.EntryAlreadyExists? then NameConflict else UpdateFailed(code));
      case Lost(_) =>
        return Failure(ConnectionLost);
      case Accepted =>
    }
    c.Modify(dn, c.entries[dn].(hasPassword := true), on.password);
    if on.password.Accepted? && r.enabled {
      c.Modify(dn, c.entries[dn].(uac := NORMAL_ACCOUNT_ENABLED), on.enable);
    }
    var last := if on.password.Accepted? && r.enabled then on.enable else on.password;
    if last.Refused? {
      c.Delete(dn, on.cleanUp);
      return Failure(if on.cleanUp.Lost? then ConnectionLost else UpdateFailed(last.code));
    }
    if last.Lost? {
      return Failure(ConnectionLost);
    }
    if on.readBackFails {
      return Failure(NotReadBack);
    }
    result := Success(StatusOf(c.entries[dn].uac));
  }

  /** `set_user_enabled`: reads the bits, flips one, and writes only if that changes anything. */
  method SetUserEnabled(c: Connection, dn: Option<Dn>, enabled: bool, reply: Reply) returns (r: Result<bool, Error>)
    requires dn.Some? ==> dn.value in c.entries && c.entries[dn.value].UserEntry?
    modifies c
    ensures dn.None? ==> r == Failure(NotFound) && c.entries == old(c.entries)
    ensures dn.Some? ==>
              var was := old(c.entries)[dn.value]; var needed := StatusOf(was.uac) != StandingOf(enabled);
              && (r.Failure? <==> needed && !reply.Accepted?)
              && c.entries == (if needed && !Took(reply) then old(c.entries)
                               else old(c.entries)[dn.value := was.(uac := Switched(was.uac, enabled))])
              && (r.Success? ==> StatusOf(c.entries[dn.value].uac) == StandingOf(enabled))
              && OtherBits(c.entries[dn.value].uac) == OtherBits(was.uac)
              && c.history == old(c.history) + (if needed && Took(reply) then [c.entries] else [])
  {
    hide Switched, StatusOf, OtherBits;
    if dn.None? {
      return Failure(NotFound);
    }
    var current := c.entries[dn.value].uac;
    SwitchedKeepsOtherBits(current, enabled);
    var next := Switched(current, enabled);
    if next == current {
      assert c.entries[dn.value].(uac := next) == c.entries[dn.value];
      assert c.entries == c.entries[dn.value := c.entries[dn.value].(uac := next)];
      return Success(true);
    }
    c.Modify(dn.value, c.entries[dn.value].(uac := next), reply);
    match reply {
      case Accepted => r := Success(true);
      case Refused(code) => r := Failure(UpdateFailed(code));
      case Lost(_) => r := Failure(ConnectionLost);
    }
  }

  /** `add_group_member` and `remove_group_member`: whoever cannot be found cannot be added, and need not be removed. */
  method SetMember(c: Connection, group: Option<Dn>, user: Option<Dn>, change: Change, answer: Answer)
    returns (r: Result<bool, Error>)
    requires group.Some? ==> group.value in c.entries && c.entries[group.value].GroupEntry?
    modifies c
    ensures group.None? || user.None? ==>
              c.entries == old(c.entries) && r == if change.Activate? then Failure(NotFound) else Success(true)
    ensures group.Some? && user.Some? ==>
              && c.entries == ChangeMember(old(c.entries), group.value, user.value, change, answer).0
              && r == ChangeMember(old(c.entries), group.value, user.value, change, answer).1
  {
    if group.None? || user.None? {
      return if change.Activate? then Failure(NotFound) else Success(true);
    }
    var e := c.entries[group.value];
    var reply := ModifyReply(e.members, user.value, change, answer);
    c.Modify(group.value, e.(members := Changed(e.members, user.value, change)), reply);
    match reply {
      case Accepted => r := Success(true);
      case Refused(code) => r := if CountsAsDone(code, change) then Success(true) else Failure(UpdateFailed(code));
      case Lost(_) => r := Failure(ConnectionLost);
    }
  }
}
