/**
  Synchronisation of users with an LDAP provider: `updateLdapUsers` and `disableMissingLdapUsers`. Timestamps
  are left out, and the authentication sources of a user form a set, as the database keys them.
*/
module LdapSync {
  import opened Wrappers

  const MISSING_IN_LDAP := "missing in ldap"

  datatype Source = Ldap | Database | Oauth

  datatype AuthSource = AuthSource(source: Source, provider: string)

  /** What LDAP determines about a user. */
  datatype Profile = Profile(
    email: string, firstname: string, lastname: string, phone: string, department: string, isAdmin: bool)

  /** `local` stands for everything that is not shared with LDAP. */
  datatype User = User(
    profile: Profile, auths: set<AuthSource>, persistLocalChanges: bool, disabled: bool, disabledReason: string,
    password: string, local: string)

  /** Identifiers that no user may have. */
  const RESERVED: set<string> := {
    "all", "new", "id", "_WG_SYS_ADMIN_", "_WG_SYS_UNKNOWN_", "_WG_SYS_LDAP_SYNCER_", "_WG_SYS_WG_IMPORTER_",
    "_WG_SYS_V1_MIGRATOR_", "_WG_SYS_DB_MIGRATOR_"}

  /** An entry after sanitising: no identifier if it is invalid or reserved, no profile if the groups are malformed. */
  datatype Entry = Entry(id: string, profile: Option<Profile>)

  datatype Provider = Provider(name: string, autoReEnable: bool, disableMissing: bool)

  function SourceOf(p: Provider): AuthSource {
    AuthSource(Ldap, p.name)
  }

  function Converted(p: Provider, profile: Profile): User {
    User(profile, {SourceOf(p)}, false, false, "", "", "")
  }

  predicate HasSource(u: User, source: Source) {
    exists a :: a in u.auths && a.source == source
  }

  /** `userChangedInLdap`: the provider of an LDAP source is not compared. */
  predicate UserChangedInLdap(dbUser: User, ldapUser: User) {
    || dbUser.profile != ldapUser.profile
    || dbUser.disabled != ldapUser.disabled
    || !HasSource(dbUser, Ldap)
  }

  /** Whether the state "missing" is taken back when the user is seen again. */
  predicate ReEnables(p: Provider, u: User) {
    p.autoReEnable && u.disabledReason == MISSING_IN_LDAP
  }

  /** The entry as a user, with the state of the existing user. */
  function WithState(p: Provider, existing: User, profile: Profile): User {
    if ReEnables(p, existing) then Converted(p, profile)
    else Converted(p, profile).(disabled := existing.disabled, disabledReason := existing.disabledReason)
  }

  function MergedUser(existing: User, user: User): User {
    existing.(
      profile := user.profile, auths := existing.auths + user.auths,
      disabled := user.disabled, disabledReason := user.disabledReason)
  }

  /** What an entry makes of a user. */
  function Synced(p: Provider, existing: Option<User>, profile: Profile): User {
    match existing
    case None => Converted(p, profile)
    case Some(u) =>
      var user := WithState(p, u, profile);
      if u.persistLocalChanges || !UserChangedInLdap(u, user) then u else MergedUser(u, user)
  }

  /** `update` refuses a user with a password but no database source, and a password that is too short. */
  predicate Refused(minPasswordLength: nat, existing: User, changed: User) {
    changed.password != "" &&
    (!HasSource(existing, Database) || (HasSource(changed, Database) && |changed.password| < minPasswordLength))
  }

  function Apply(p: Provider, users: map<string, User>, e: Entry): map<string, User> {
    if e.id == "" || e.profile.None? then users
    else users[e.id := Synced(p, Lookup(users, e.id), e.profile.value)]
  }

  /** The users after all entries. */
  function ApplyAll(p: Provider, users: map<string, User>, entries: seq<Entry>): map<string, User> {
    if entries == [] then users
    else Apply(p, ApplyAll(p, users, entries[..|entries| - 1]), entries[|entries| - 1])
  }

  /** Whether an entry can be applied: it converts, and the new or changed user is accepted by the checks. */
  predicate Applicable(minPasswordLength: nat, p: Provider, users: map<string, User>, e: Entry) {
    && e.profile.Some?
    && (e.id == "" ||
        match Lookup(users, e.id)
        case None => e.id !in RESERVED
        case Some(u) =>
          || Synced(p, Some(u), e.profile.value) == u
          || !Refused(minPasswordLength, u, u))
  }

  predicate ApplicableAt(minPasswordLength: nat, p: Provider, users: map<string, User>, entries: seq<Entry>, k: nat)
    requires k < |entries|
  {
    Applicable(minPasswordLength, p, ApplyAll(p, users, entries[..k]), entries[k])
  }

  predicate AllApplicable(minPasswordLength: nat, p: Provider, users: map<string, User>, entries: seq<Entry>) {
    forall k :: 0 <= k < |entries| ==> ApplicableAt(minPasswordLength, p, users, entries, k)
  }

  predicate InLdap(entries: seq<Entry>, id: string) {
    exists i :: 0 <= i < |entries| && entries[i].id == id
  }

  /** Whether an absent user is to be disabled. */
  predicate IsMissing(p: Provider, u: User, id: string, entries: seq<Entry>) {
    SourceOf(p) in u.auths && !u.disabled && !u.persistLocalChanges && !InLdap(entries, id)
  }

  function Disabled(u: User): User {
    u.(disabled := true, disabledReason := MISSING_IN_LDAP)
  }

  function DisableMissing(p: Provider, users: map<string, User>, entries: seq<Entry>): map<string, User> {
    map id | id in users :: if IsMissing(p, users[id], id, entries) then Disabled(users[id]) else users[id]
  }

  /** The users after a synchronisation. */
  function Sync(p: Provider, users: map<string, User>, entries: seq<Entry>): map<string, User> {
    var updated := ApplyAll(p, users, entries);
    if p.disableMissing then DisableMissing(p, updated, entries) else updated
  }

  // ---------------------------------------------------------------------- the steps

  class UserManager {
    const minPasswordLength: nat
    /** No database call fails for a reason of its own. */
    const reliable: bool
    var users: map<string, User>

    constructor (minPasswordLength: nat, reliable: bool, users: map<string, User>)
      ensures this.minPasswordLength == minPasswordLength && this.reliable == reliable && this.users == users
    {
      this.minPasswordLength, this.reliable, this.users := minPasswordLength, reliable, users;
    }

    /** Loading a user: not found is told apart from a failure. */
    method GetUser(id: string) returns (ok: bool, user: Option<User>)
      ensures ok ==> user == Lookup(users, id)
      ensures reliable ==> ok
    {
      ok := *;
      ok := ok || reliable;
      user := if ok then Lookup(users, id) else None;
    }

    method SaveUser(id: string, user: User) returns (ok: bool)
      modifies this
      ensures users == if ok then old(users)[id := user] else old(users)
      ensures reliable ==> ok
    {
      ok := *;
      ok := ok || reliable;
      if ok {
        users := users[id := user];
      }
    }

    method Create(id: string, user: User) returns (ok: bool)
      modifies this
      ensures users == if ok then old(users)[id := user] else old(users)
      ensures ok ==> id != "" && id !in old(users) && id !in RESERVED && |user.auths| == 1
      ensures ok && HasSource(user, Database) ==> 0 < |user.password| && minPasswordLength <= |user.password|
      ensures reliable && !HasSource(user, Database) ==>
                (ok <==> id != "" && id !in old(users) && id !in RESERVED && |user.auths| == 1)
    {
      if id == "" {
        return false;
      }
      var loaded, existing := GetUser(id);
      if !loaded || existing.Some? {
        return false;
      }
      if id in RESERVED || |user.auths| != 1 {
        return false;
      }
      if HasSource(user, Database) && (user.password == "" || |user.password| < minPasswordLength) {
        return false;
      }
      ok := SaveUser(id, user);
    }

    method Update(id: string, existing: User, user: User) returns (ok: bool)
      modifies this
      ensures users == if ok then old(users)[id := user] else old(users)
      ensures ok && user.password != "" ==>
                && (exists a :: a in existing.auths && a.source == Database)
                && ((exists a :: a in user.auths && a.source == Database) ==> |user.password| >= minPasswordLength)
      ensures reliable ==> (ok <==> !Refused(minPasswordLength, existing, user))
    {
      if user.password != "" && !(exists a :: a in existing.auths && a.source == Database) {
        return false;
      }
      if user.password != "" && HasSource(user, Database) && |user.password| < minPasswordLength {
        return false;
      }
      ok := SaveUser(id, user);
    }

    /** One entry of the update loop; a malformed group is an error, an invalid identifier is skipped. */
    method UpdateLdapUser(p: Provider, e: Entry) returns (ok: bool)
      modifies this
      ensures ok ==> e.profile.Some? && users == Apply(p, old(users), e)
      ensures !ok ==> users == old(users)
      ensures reliable ==> (ok <==> Applicable(minPasswordLength, p, old(users), e))
    {
      if e.profile.None? {
        return false;
      }
      if e.id == "" {
        return true;
      }
      var user := Converted(p, e.profile.value);
      var existing;
      ok, existing := GetUser(e.id);
      if !ok {
        return;
      }
      if existing.None? {
        ok := Create(e.id, user);
        return;
      }
      var u := existing.value;
      if p.autoReEnable && u.disabledReason == MISSING_IN_LDAP {
        user := user.(disabled := false, disabledReason := "");
      } else {
        user := user.(disabled := u.disabled, disabledReason := u.disabledReason);
      }
      if u.persistLocalChanges {
        assert users[e.id := u] == users;
        return true;
      }
      if UserChangedInLdap(u, user) {
        var syncedUser;
        ok, syncedUser := GetUser(e.id);
        if !ok {
          return;
        }
        var merged := MergedUser(syncedUser.value, user);
        ok := Update(e.id, u, merged);
      } else {
        assert users[e.id := u] == users;
      }
    }

    /** On failure the entries before the failing one have been applied. */
    method UpdateLdapUsers(p: Provider, entries: seq<Entry>) returns (ok: bool, ghost done: nat)
      modifies this
      ensures done <= |entries| && users == ApplyAll(p, old(users), entries[..done])
      ensures ok ==> users == ApplyAll(p, old(users), entries)
      ensures ok ==> Convertible(entries)
      ensures reliable ==> (ok <==> AllApplicable(minPasswordLength, p, old(users), entries))
    {
      hide Apply, Applicable;
      done := 0;
      for i := 0 to |entries|
        invariant users == ApplyAll(p, old(users), entries[..i])
        invariant done == i
        invariant forall k :: 0 <= k < i ==> entries[k].profile.Some?
        invariant reliable ==>
                    forall k :: 0 <= k < i ==> ApplicableAt(minPasswordLength, p, old(users), entries, k)
      {
        assert entries[..i + 1][..i] == entries[..i];
        ok := UpdateLdapUser(p, entries[i]);
        assert reliable ==> (ok <==> ApplicableAt(minPasswordLength, p, old(users), entries, i));
        if !ok {
          return;
        }
        done := i + 1;
      }
      assert entries[..|entries|] == entries;
      ok := true;
    }

    /** Disables the users that are linked to the provider and no longer found there. */
    method DisableMissingLdapUsers(p: Provider, entries: seq<Entry>) returns (ok: bool)
      modifies this
      ensures ok ==> users == DisableMissing(p, old(users), entries)
      ensures users.Keys == old(users).Keys
      ensures forall id :: id in users ==>
                users[id] == old(users)[id] || users[id] == DisableMissing(p, old(users), entries)[id]
      ensures reliable ==> ok
    {
      var loaded: bool := *;
      if !loaded && !reliable {
        return false;
      }
      var rest := users.Keys;
      while rest != {}
        invariant users.Keys == old(users).Keys && rest <= users.Keys
        invariant forall id :: id in rest ==> users[id] == old(users)[id]
        invariant forall id :: id in users && id !in rest ==>
                    users[id] == DisableMissing(p, old(users), entries)[id]
        decreases rest
      {
        var id :| id in rest;
        rest := rest - {id};
        var user := users[id];
        if SourceOf(p) !in user.auths {
          continue;
        }
        if user.disabled {
          continue;
        }
        if user.persistLocalChanges {
          continue;
        }
        var existsInLdap := ExistsInLdap(entries, id);
        if existsInLdap {
          continue;
        }
        ok := SaveUser(id, Disabled(user));
        if !ok {
          return;
        }
      }
      ok := true;
    }

    method ExistsInLdap(entries: seq<Entry>, id: string) returns (found: bool)
      ensures found <==> InLdap(entries, id)
    {
      found := false;
      for i := 0 to |entries|
        invariant !found && forall k :: 0 <= k < i ==> entries[k].id != id
      {
        if entries[i].id == id {
          return true;
        }
      }
    }

    method SynchronizeLdapUsers(p: Provider, entries: seq<Entry>) returns (ok: bool)
      modifies this
      ensures ok ==> users == Sync(p, old(users), entries) && Convertible(entries)
      ensures reliable ==> (ok <==> AllApplicable(minPasswordLength, p, old(users), entries))
    {
      ghost var done;
      ok, done := UpdateLdapUsers(p, entries);
      if !ok {
        return;
      }
      if p.disableMissing {
        ok := DisableMissingLdapUsers(p, entries);
      }
    }
  }

  /** The admin group of every entry could be read. */
  predicate Convertible(entries: seq<Entry>) {
    forall i :: 0 <= i < |entries| ==> entries[i].profile.Some?
  }

  // ---------------------------------------------------------------------- one user at a time

  /** What the entries make of the user with this identifier. */
  function Folded(p: Provider, u: Option<User>, entries: seq<Entry>, id: string): Option<User> {
    if entries == [] then u
    else
      var before, e := Folded(p, u, entries[..|entries| - 1], id), entries[|entries| - 1];
      if e.id == id && e.profile.Some? then Some(Synced(p, before, e.profile.value)) else before
  }

  lemma {:induction false} AppliedOneByOne(p: Provider, users: map<string, User>, entries: seq<Entry>, id: string)
    requires id != ""
    ensures Lookup(ApplyAll(p, users, entries), id) == Folded(p, Lookup(users, id), entries, id)
  {
    hide Synced;
    if entries != [] {
      AppliedOneByOne(p, users, entries[..|entries| - 1], id);
    }
  }

  lemma {:induction false} NoIdNoChange(p: Provider, users: map<string, User>, entries: seq<Entry>)
    ensures Lookup(ApplyAll(p, users, entries), "") == Lookup(users, "")
  {
    hide Synced;
    if entries != [] {
      NoIdNoChange(p, users, entries[..|entries| - 1]);
    }
  }

  lemma {:induction false} AbsentIsNotFolded(p: Provider, u: Option<User>, entries: seq<Entry>, id: string)
    requires !InLdap(entries, id)
    ensures Folded(p, u, entries, id) == u
  {
    if entries != [] {
      var n := |entries| - 1;
      assert forall i :: 0 <= i < n ==> entries[..n][i] == entries[i];
      AbsentIsNotFolded(p, u, entries[..n], id);
    }
  }

  /** The profile of the last entry for the identifier. */
  function LastProfile(entries: seq<Entry>, id: string): Option<Profile> {
    if entries == [] then None
    else if entries[|entries| - 1].id == id && entries[|entries| - 1].profile.Some? then entries[|entries| - 1].profile
    else LastProfile(entries[..|entries| - 1], id)
  }

  predicate AllSame(entries: seq<Entry>, id: string, profile: Profile) {
    forall i :: 0 <= i < |entries| && entries[i].id == id && entries[i].profile.Some? ==>
      entries[i].profile.value == profile
  }

  lemma AllSameSnoc(entries: seq<Entry>, id: string, profile: Profile)
    requires entries != []
    ensures var n := |entries| - 1;
            AllSame(entries, id, profile) <==>
              AllSame(entries[..n], id, profile) &&
              (entries[n].id == id && entries[n].profile.Some? ==> entries[n].profile.value == profile)
  {
    var n := |entries| - 1;
    if AllSame(entries[..n], id, profile) {
      forall i | 0 <= i < n
        ensures entries[i] == entries[..n][i]
      {
      }
    }
  }

  lemma {:induction false} PresentHasProfile(entries: seq<Entry>, id: string)
    requires Convertible(entries) && id != ""
    ensures InLdap(entries, id) <==> LastProfile(entries, id).Some?
  {
    if entries != [] {
      var n := |entries| - 1;
      assert forall i :: 0 <= i < n ==> entries[..n][i] == entries[i];
      PresentHasProfile(entries[..n], id);
      if InLdap(entries, id) && entries[n].id != id {
        var i :| 0 <= i < |entries| && entries[i].id == id;
        assert entries[..n][i].id == id;
      }
    }
  }

  /** The user has taken over from LDAP all but the profile. */
  predicate Merged(p: Provider, u: User) {
    !u.persistLocalChanges && SourceOf(p) in u.auths && !ReEnables(p, u)
  }

  /** An entry with the profile the user has changes nothing. */
  predicate Settled(p: Provider, u: User) {
    Synced(p, Some(u), u.profile) == u
  }

  lemma MergedSettles(p: Provider, u: User, profile: Profile)
    requires Merged(p, u)
    ensures Synced(p, Some(u), profile) == u.(profile := profile)
    ensures Merged(p, u.(profile := profile)) && Settled(p, u)
  {
    assert u.auths + {SourceOf(p)} == u.auths;
    assert HasSource(u, Ldap) by {
      assert SourceOf(p) in u.auths && SourceOf(p).source == Ldap;
    }
  }

  lemma SyncedSettles(p: Provider, existing: Option<User>, profile: Profile)
    requires existing.Some? ==> !existing.value.persistLocalChanges
    ensures var u := Synced(p, existing, profile);
            && u.profile == profile && !u.persistLocalChanges && Settled(p, u)
            && (existing.None? || existing.value.profile != profile ==> Merged(p, u))
  {
    var u := Synced(p, existing, profile);
    if existing.Some? && u == existing.value {
      assert Settled(p, u);
    } else {
      assert MISSING_IN_LDAP != "";
      MergedSettles(p, u, profile);
    }
  }

  lemma {:induction false} FoldedFromMerged(p: Provider, u: User, entries: seq<Entry>, id: string)
    requires Merged(p, u)
    ensures Folded(p, Some(u), entries, id) ==
              Some(if LastProfile(entries, id).Some? then u.(profile := LastProfile(entries, id).value) else u)
  {
    hide Synced, Merged;
    if entries != [] {
      var n := |entries| - 1;
      FoldedFromMerged(p, u, entries[..n], id);
      if LastProfile(entries[..n], id).Some? {
        MergedSettles(p, u, LastProfile(entries[..n], id).value);
      }
      if entries[n].profile.Some? {
        MergedSettles(p, u, entries[n].profile.value);
        MergedSettles(p, Folded(p, Some(u), entries[..n], id).value, entries[n].profile.value);
      }
    }
  }

  /** After the entries a user has the last profile, and is settled; it is merged unless all profiles were the same. */
  lemma {:induction false} FoldedSettles(p: Provider, u: Option<User>, entries: seq<Entry>, id: string)
    requires u.Some? ==> !u.value.persistLocalChanges
    requires LastProfile(entries, id).Some?
    ensures Folded(p, u, entries, id).Some?
    ensures var v := Folded(p, u, entries, id).value;
            && v.profile == LastProfile(entries, id).value && !v.persistLocalChanges && Settled(p, v)
            && (Merged(p, v) || AllSame(entries, id, v.profile))
  {
    hide Synced, Merged;
    var n := |entries| - 1;
    var e := entries[n];
    if LastProfile(entries[..n], id).Some? {
      FoldedSettles(p, u, entries[..n], id);
    } else {
      NoProfileNoChange(p, u, entries[..n], id);
    }
    AllSameSnoc(entries, id, Folded(p, u, entries, id).value.profile);
    if e.id == id && e.profile.Some? {
      var before := Folded(p, u, entries[..n], id);
      SyncedSettles(p, before, e.profile.value);
      if before.Some? && Merged(p, before.value) {
        MergedSettles(p, before.value, e.profile.value);
      }
    }
  }

  lemma {:induction false} NoProfileNoChange(p: Provider, u: Option<User>, entries: seq<Entry>, id: string)
    requires LastProfile(entries, id).None?
    ensures Folded(p, u, entries, id) == u
    ensures forall profile :: AllSame(entries, id, profile)
  {
    if entries != [] {
      var n := |entries| - 1;
      assert forall i :: 0 <= i < n ==> entries[..n][i] == entries[i];
      NoProfileNoChange(p, u, entries[..n], id);
      forall profile
        ensures AllSame(entries, id, profile)
      {
        assert AllSame(entries[..n], id, profile);
      }
    }
  }

  lemma {:induction false} SettledStays(p: Provider, u: User, entries: seq<Entry>, id: string)
    requires Settled(p, u) && AllSame(entries, id, u.profile)
    ensures Folded(p, Some(u), entries, id) == Some(u)
  {
    hide Synced;
    if entries != [] {
      var n := |entries| - 1;
      assert forall i :: 0 <= i < n ==> entries[..n][i] == entries[i];
      SettledStays(p, u, entries[..n], id);
    }
  }

  lemma {:induction false} PersistentStays(p: Provider, u: User, entries: seq<Entry>, id: string)
    requires u.persistLocalChanges
    ensures Folded(p, Some(u), entries, id) == Some(u)
  {
    if entries != [] {
      PersistentStays(p, u, entries[..|entries| - 1], id);
    }
  }

  lemma FoldedTwice(p: Provider, u: Option<User>, entries: seq<Entry>, id: string)
    ensures Folded(p, Folded(p, u, entries, id), entries, id) == Folded(p, u, entries, id)
  {
    hide Synced, Merged, Settled;
    if LastProfile(entries, id).None? {
      NoProfileNoChange(p, u, entries, id);
    } else if u.Some? && u.value.persistLocalChanges {
      PersistentStays(p, u.value, entries, id);
    } else {
      FoldedSettles(p, u, entries, id);
      var v := Folded(p, u, entries, id).value;
      if Merged(p, v) {
        FoldedFromMerged(p, v, entries, id);
      } else {
        SettledStays(p, v, entries, id);
      }
    }
  }

  // ---------------------------------------------------------------------- what a synchronisation guarantees

  /** The user after a synchronisation, as a function of the user before it. */
  function SyncedUser(p: Provider, u: Option<User>, entries: seq<Entry>, id: string): Option<User> {
    var v := if id == "" then u else Folded(p, u, entries, id);
    if p.disableMissing && v.Some? && IsMissing(p, v.value, id, entries) then Some(Disabled(v.value)) else v
  }

  lemma SyncIsPerUser(p: Provider, users: map<string, User>, entries: seq<Entry>, id: string)
    ensures Lookup(Sync(p, users, entries), id) == SyncedUser(p, Lookup(users, id), entries, id)
  {
    hide ApplyAll, Folded, IsMissing;
    if id == "" {
      NoIdNoChange(p, users, entries);
    } else {
      AppliedOneByOne(p, users, entries, id);
    }
  }

  /** A second synchronisation with the same entries changes no user. */
  lemma SyncTwice(p: Provider, users: map<string, User>, entries: seq<Entry>)
    requires Convertible(entries)
    ensures Sync(p, Sync(p, users, entries), entries) == Sync(p, users, entries)
  {
    hide Sync, Convertible, SyncedUser;
    var once := Sync(p, users, entries);
    var twice := Sync(p, once, entries);
    forall id: string
      ensures Lookup(twice, id) == Lookup(once, id)
    {
      SyncIsPerUser(p, users, entries, id);
      SyncIsPerUser(p, once, entries, id);
      UserSyncedTwice(p, Lookup(users, id), entries, id);
    }
    SameLookups(twice, once);
  }

  lemma SameLookups(a: map<string, User>, b: map<string, User>)
    requires forall id: string :: Lookup(a, id) == Lookup(b, id)
    ensures a == b
  {
    forall id: string
      ensures id in a <==> id in b
      ensures id in a ==> a[id] == b[id]
    {
      assert Lookup(a, id) == Lookup(b, id);
    }
  }

  lemma UserSyncedTwice(p: Provider, u: Option<User>, entries: seq<Entry>, id: string)
    requires Convertible(entries)
    ensures SyncedUser(p, SyncedUser(p, u, entries, id), entries, id) == SyncedUser(p, u, entries, id)
  {
    hide Synced, Folded, Convertible;
    if id != "" && InLdap(entries, id) {
      FoldedTwice(p, u, entries, id);
    } else if id != "" {
      AbsentIsNotFolded(p, u, entries, id);
      AbsentIsNotFolded(p, SyncedUser(p, u, entries, id), entries, id);
    }
  }

  /** A user is re-enabled iff it is present again, was disabled for being missing, and the provider re-enables. */
  lemma ReEnabledIff(p: Provider, users: map<string, User>, entries: seq<Entry>, id: string)
    requires Convertible(entries) && id in users && id != "" && users[id].disabled
    ensures id in Sync(p, users, entries)
    ensures !Sync(p, users, entries)[id].disabled <==>
              && InLdap(entries, id) && p.autoReEnable && users[id].disabledReason == MISSING_IN_LDAP
              && !users[id].persistLocalChanges
  {
    hide Sync, Convertible, Synced;
    SyncIsPerUser(p, users, entries, id);
    PresentHasProfile(entries, id);
    FoldedState(p, users[id], entries, id);
    if !InLdap(entries, id) {
      AbsentIsNotFolded(p, Some(users[id]), entries, id);
    }
  }

  /** The entries enable a user, or leave its state; they never disable one. */
  lemma {:induction false} FoldedState(p: Provider, u: User, entries: seq<Entry>, id: string)
    ensures Folded(p, Some(u), entries, id).Some?
    ensures var v := Folded(p, Some(u), entries, id).value;
            && v.persistLocalChanges == u.persistLocalChanges && v.password == u.password && v.local == u.local
            && u.auths <= v.auths <= u.auths + {SourceOf(p)}
            && (v.disabled <==>
                 u.disabled && !(ReEnables(p, u) && !u.persistLocalChanges && LastProfile(entries, id).Some?))
            && (v.disabled ==> v.disabledReason == u.disabledReason)
            && (u.disabled && !v.disabled ==> v.disabledReason == "")
  {
    if entries != [] {
      FoldedState(p, u, entries[..|entries| - 1], id);
    }
  }

  /** A user who is linked, not persistent and absent ends up disabled. */
  lemma AbsentLinkedIsDisabled(p: Provider, users: map<string, User>, entries: seq<Entry>, id: string)
    requires p.disableMissing && id in users && !InLdap(entries, id)
    requires SourceOf(p) in users[id].auths && !users[id].persistLocalChanges
    ensures id in Sync(p, users, entries) && Sync(p, users, entries)[id].disabled
    ensures Sync(p, users, entries)[id] == if users[id].disabled then users[id] else Disabled(users[id])
  {
    hide Sync, Folded;
    SyncIsPerUser(p, users, entries, id);
    if id != "" {
      AbsentIsNotFolded(p, Some(users[id]), entries, id);
    }
  }

  /**
    What one synchronisation disables for being absent, a later one with the user present enables again, if and
    only if the provider of that later one re-enables.
  */
  lemma MissingIsUndoneIff(
      p: Provider, q: Provider, users: map<string, User>, absent: seq<Entry>, present: seq<Entry>, id: string)
    requires p.disableMissing && id != "" && id in users && !users[id].disabled && !users[id].persistLocalChanges
    requires SourceOf(p) in users[id].auths && !InLdap(absent, id)
    requires Convertible(present) && InLdap(present, id)
    ensures id in Sync(p, users, absent) && Sync(p, users, absent)[id].disabled
    ensures var after := Sync(q, Sync(p, users, absent), present);
            id in after && (!after[id].disabled <==> q.autoReEnable)
  {
    hide Sync, Convertible;
    AbsentLinkedIsDisabled(p, users, absent, id);
    ReEnabledIff(q, Sync(p, users, absent), present, id);
  }

  /** A user that LDAP has and the database does not is created enabled, linked to this provider alone. */
  lemma NewUserIs(p: Provider, users: map<string, User>, entries: seq<Entry>, id: string)
    requires Convertible(entries) && id != "" && id !in users && InLdap(entries, id)
    ensures id in Sync(p, users, entries) && LastProfile(entries, id).Some?
    ensures Sync(p, users, entries)[id] ==
              User(LastProfile(entries, id).value, {AuthSource(Ldap, p.name)}, false, false, "", "", "")
  {
    hide Sync, Folded, Synced, Convertible;
    SyncIsPerUser(p, users, entries, id);
    PresentHasProfile(entries, id);
    FoldedNew(p, entries, id);
  }

  lemma {:induction false} FoldedNew(p: Provider, entries: seq<Entry>, id: string)
    ensures Folded(p, None, entries, id) ==
              match LastProfile(entries, id)
              case None => None
              case Some(profile) => Some(User(profile, {AuthSource(Ldap, p.name)}, false, false, "", "", ""))
  {
    if entries != [] {
      var n := |entries| - 1;
      FoldedNew(p, entries[..n], id);
      if LastProfile(entries[..n], id).Some? && entries[n].profile.Some? {
        assert MISSING_IN_LDAP != "";
        MergedSettles(p, Converted(p, LastProfile(entries[..n], id).value), entries[n].profile.value);
      }
    }
  }

  /** Users that keep local changes, and absent users without a link to the provider, never change. */
  lemma UntouchedUsers(p: Provider, users: map<string, User>, entries: seq<Entry>, id: string)
    requires id in users
    requires users[id].persistLocalChanges || (!InLdap(entries, id) && SourceOf(p) !in users[id].auths)
    ensures id in Sync(p, users, entries) && Sync(p, users, entries)[id] == users[id]
  {
    hide Sync, Folded, Synced;
    SyncIsPerUser(p, users, entries, id);
    if id != "" && users[id].persistLocalChanges {
      PersistentStays(p, users[id], entries, id);
    } else if id != "" {
      AbsentIsNotFolded(p, Some(users[id]), entries, id);
    }
  }

  /** Present users mirror their last entry, and keep their local fields; users are created for new entries only. */
  lemma PresentUsersMirrorLdap(p: Provider, users: map<string, User>, entries: seq<Entry>, id: string)
    requires Convertible(entries) && id != ""
    ensures id in Sync(p, users, entries) <==> id in users || InLdap(entries, id)
    ensures InLdap(entries, id) && (id !in users || !users[id].persistLocalChanges) ==>
              LastProfile(entries, id) == Some(Sync(p, users, entries)[id].profile)
    ensures id in users ==>
              && Sync(p, users, entries)[id].password == users[id].password
              && Sync(p, users, entries)[id].local == users[id].local
              && users[id].auths <= Sync(p, users, entries)[id].auths <= users[id].auths + {SourceOf(p)}
  {
    hide Sync, Folded, Synced, Convertible;
    SyncIsPerUser(p, users, entries, id);
    PresentHasProfile(entries, id);
    if id in users {
      FoldedState(p, users[id], entries, id);
    }
    if !InLdap(entries, id) {
      AbsentIsNotFolded(p, Lookup(users, id), entries, id);
    } else if id !in users || !users[id].persistLocalChanges {
      FoldedSettles(p, Lookup(users, id), entries, id);
    }
  }

  /**
    A linked user of another LDAP provider is linked to this one as well if and only if something else about
    the user differs, since only the kind of the source is compared.
  */
  lemma LinkedOnSyncIff(p: Provider, u: User, profile: Profile)
    requires !u.persistLocalChanges && SourceOf(p) !in u.auths
    ensures SourceOf(p) in Synced(p, Some(u), profile).auths <==>
              || u.profile != profile || !HasSource(u, Ldap) || (u.disabled && ReEnables(p, u))
  {
  }
}
