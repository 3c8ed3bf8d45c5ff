/**
 Importing hosts from an OpenSSH configuration.  A first pass decides the profile id of every
 alias, reusing the id of an imported profile with the same name up to case; a second pass writes
 the profiles under these ids, translating jump hosts into profile ids.

 `Naming` holds what comes from outside: case folding, the fresh ids, the default user and the
 profile validator.
 */
module OpenSshImport {
  import opened Lists
  import opened Texts

  datatype Option<+T> = None | Some(value: T)

  datatype Authentication = Agent | PrivateKey | Password

  /** The profile fields an import writes; `options` stands for all the others, which it keeps. */
  datatype Profile = Profile(
    id: string,
    name: string,
    group: string,
    host: string,
    port: int,
    username: string,
    privateKeyPath: string,
    authentication: Authentication,
    passphraseRequired: bool,
    identityReference: Option<string>,
    credentialReference: Option<string>,
    jumpProfileIds: seq<string>,
    options: string)

  const BLANK := Profile("", "", "", "", 22, "", "", Password, false, None, None, [], "")

  datatype HostConfig = HostConfig(alias: string, hostName: string, user: string, port: nat, identityFile: string, proxyJump: string)

  datatype Naming = Naming(fold: string -> string, defaultUser: string, valid: Profile -> bool)

  const GROUP := "OpenSSH"

  // ----- text -----

  /** The part after the last separator. */
  function LastSection(s: string, separator: char): string {
    if s == "" || s[|s| - 1] == separator then "" else LastSection(s[..|s| - 1], separator) + [s[|s| - 1]]
  }

  /** The part before the first separator. */
  function FirstSection(s: string, separator: char): string {
    if s == "" || s[0] == separator then "" else [s[0]] + FirstSection(s[1..], separator)
  }

  /** The alias a jump refers to: user and port are dropped. */
  function JumpAlias(proxyJump: string): string {
    FirstSection(if '@' in proxyJump then LastSection(proxyJump, '@') else proxyJump, ':')
  }

  // ----- lookups -----

  /** The first imported profile with this name up to case; the length of the list if there is none. */
  function FindImported(profiles: seq<Profile>, alias: string, naming: Naming): (k: nat)
    ensures k <= |profiles|
    ensures k < |profiles| ==> IsImported(profiles[k], alias, naming)
    ensures forall i :: 0 <= i < k ==> !IsImported(profiles[i], alias, naming)
  {
    if profiles == [] || IsImported(profiles[0], alias, naming) then 0 else 1 + FindImported(profiles[1..], alias, naming)
  }

  predicate IsImported(profile: Profile, alias: string, naming: Naming) {
    profile.group == GROUP && naming.fold(profile.name) == naming.fold(alias)
  }

  function FindId(profiles: seq<Profile>, id: string): (k: nat)
    ensures k <= |profiles|
    ensures k < |profiles| ==> profiles[k].id == id
    ensures forall i :: 0 <= i < k ==> profiles[i].id != id
  {
    if profiles == [] || profiles[0].id == id then 0 else 1 + FindId(profiles[1..], id)
  }

  // ----- the two passes -----

  /** First pass: the id for each alias; `newIds[k]` is the id that host `k` gets if it needs a new one. */
  function AssignIds(profiles: seq<Profile>, hosts: seq<HostConfig>, newIds: seq<string>, naming: Naming): map<string, string>
    requires |newIds| == |hosts|
  {
    if hosts == [] then map[]
    else
      var last := |hosts| - 1;
      AssignIds(profiles, hosts[..last], newIds[..last], naming)[hosts[last].alias := IdFor(profiles, hosts[last].alias, newIds[last], naming)]
  }

  function IdFor(profiles: seq<Profile>, alias: string, newId: string, naming: Naming): string {
    var k := FindImported(profiles, alias, naming);
    if k == |profiles| then newId else profiles[k].id
  }

  /** The profile that a host becomes, given what is stored under its id. */
  function Overwritten(stored: Profile, host: HostConfig, ids: map<string, string>, naming: Naming): Profile
    requires host.alias in ids
  {
    var id := ids[host.alias];
    var user := Trimmed(host.user);
    var jump := JumpAlias(host.proxyJump);
    Profile(id, host.alias, GROUP, host.hostName, host.port % 0x1_0000,
            if user == "" then naming.defaultUser else user,
            host.identityFile,
            if host.identityFile == "" then Agent else PrivateKey,
            false, None, None,
            if jump in ids && ids[jump] != id then [ids[jump]] else [],
            stored.options)
  }

  /** One host of the second pass: skipped if invalid, else appended or written over the profile with its id. */
  function Upsert(profiles: seq<Profile>, host: HostConfig, ids: map<string, string>, naming: Naming): seq<Profile>
    requires host.alias in ids
  {
    var k := FindId(profiles, ids[host.alias]);
    var profile := Overwritten(if k == |profiles| then BLANK else profiles[k], host, ids, naming);
    if !naming.valid(profile) then profiles
    else if k == |profiles| then profiles + [profile]
    else profiles[k := profile]
  }

  function UpsertAll(profiles: seq<Profile>, hosts: seq<HostConfig>, ids: map<string, string>, naming: Naming): seq<Profile>
    requires forall k :: 0 <= k < |hosts| ==> hosts[k].alias in ids
    decreases |hosts|
  {
    if hosts == [] then profiles
    else UpsertAll(Upsert(profiles, hosts[0], ids, naming), hosts[1..], ids, naming)
  }

  lemma {:induction false} AssignsAllAliases(profiles: seq<Profile>, hosts: seq<HostConfig>, newIds: seq<string>, naming: Naming)
    requires |newIds| == |hosts|
    ensures forall k :: 0 <= k < |hosts| ==> hosts[k].alias in AssignIds(profiles, hosts, newIds, naming)
  {
    if hosts != [] {
      var last := |hosts| - 1;
      AssignsAllAliases(profiles, hosts[..last], newIds[..last], naming);
      assert forall k :: 0 <= k < last ==> hosts[..last][k] == hosts[k];
    }
  }

  /** The whole import. */
  function Import(profiles: seq<Profile>, hosts: seq<HostConfig>, newIds: seq<string>, naming: Naming): seq<Profile>
    requires |newIds| == |hosts|
  {
    AssignsAllAliases(profiles, hosts, newIds, naming);
    UpsertAll(profiles, hosts, AssignIds(profiles, hosts, newIds, naming), naming)
  }

  // ----- the controller's import -----

  class HostProfiles {
    var profiles: seq<Profile>
    var importRunning: bool

    constructor (stored: seq<Profile>)
      ensures profiles == stored && !importRunning
    {
      profiles := stored;
      importRunning := false;
    }

    /** Applies a finished import; a reported error or a failing save leaves the profiles alone. */
    method ApplyOpenSshConfigImport(hosts: seq<HostConfig>, error: string, newIds: seq<string>, naming: Naming, saved: bool)
      requires |newIds| == |hosts|
      modifies this
      ensures !importRunning
      ensures profiles == if error == "" && saved then Import(old(profiles), hosts, newIds, naming) else old(profiles)
    {
      importRunning := false;
      if error != "" {
        return;
      }
      var profileIds := AssignProfileIds(profiles, hosts, newIds, naming);
      AssignsAllAliases(profiles, hosts, newIds, naming);
      var candidate := UpsertHosts(profiles, hosts, profileIds, naming);
      if !saved {
        return;
      }
      profiles := candidate;
    }
  }

  /** The first loop. */
  method AssignProfileIds(candidate: seq<Profile>, hosts: seq<HostConfig>, newIds: seq<string>, naming: Naming)
    returns (profileIds: map<string, string>)
    requires |newIds| == |hosts|
    ensures profileIds == AssignIds(candidate, hosts, newIds, naming)
  {
    hide AssignIds, FindImported, IsImported;
    profileIds := map[];
    NoHosts(candidate, naming);
    for k := 0 to |hosts|
      invariant profileIds == AssignIds(candidate, hosts[..k], newIds[..k], naming)
    {
      OneMoreId(candidate, hosts, newIds, naming, k);
      var existing := FindImported(candidate, hosts[k].alias, naming);
      profileIds := profileIds[hosts[k].alias := if existing == |candidate| then newIds[k] else candidate[existing].id];
    }
    assert hosts[..|hosts|] == hosts && newIds[..|newIds|] == newIds;
  }

  /** The second loop. */
  method UpsertHosts(profiles: seq<Profile>, hosts: seq<HostConfig>, profileIds: map<string, string>, naming: Naming)
    returns (candidate: seq<Profile>)
    requires forall k :: 0 <= k < |hosts| ==> hosts[k].alias in profileIds
    ensures candidate == UpsertAll(profiles, hosts, profileIds, naming)
  {
    hide UpsertAll, Upsert, Overwritten, FindId;
    candidate := profiles;
    assert hosts[0..] == hosts;
    for k := 0 to |hosts|
      invariant UpsertAll(candidate, hosts[k..], profileIds, naming) == UpsertAll(profiles, hosts, profileIds, naming)
    {
      OneMoreHost(candidate, hosts, k, profileIds, naming);
      UpsertIs(candidate, hosts[k], profileIds, naming);
      var id := profileIds[hosts[k].alias];
      var existing := FindId(candidate, id);
      var profile := Overwritten(if existing == |candidate| then BLANK else candidate[existing], hosts[k], profileIds, naming);
      if !naming.valid(profile) {
        continue;
      }
      if existing == |candidate| {
        candidate := candidate + [profile];
      } else {
        candidate := candidate[existing := profile];
      }
    }
    NoHostLeft(candidate, profileIds, naming);
    assert hosts[|hosts|..] == [];
  }

  lemma {:induction false} NoHosts(profiles: seq<Profile>, naming: Naming)
    ensures AssignIds(profiles, [], [], naming) == map[]
  {
  }

  lemma {:induction false} NoHostLeft(profiles: seq<Profile>, ids: map<string, string>, naming: Naming)
    ensures UpsertAll(profiles, [], ids, naming) == profiles
  {
  }

  lemma {:induction false} OneMoreId(profiles: seq<Profile>, hosts: seq<HostConfig>, newIds: seq<string>, naming: Naming, k: nat)
    requires k < |hosts| == |newIds|
    ensures AssignIds(profiles, hosts[..k + 1], newIds[..k + 1], naming)
         == AssignIds(profiles, hosts[..k], newIds[..k], naming)[hosts[k].alias := IdFor(profiles, hosts[k].alias, newIds[k], naming)]
  {
    assert hosts[..k + 1][..k] == hosts[..k] && newIds[..k + 1][..k] == newIds[..k];
  }

  lemma {:induction false} OneMoreHost(profiles: seq<Profile>, hosts: seq<HostConfig>, k: nat, ids: map<string, string>, naming: Naming)
    requires k < |hosts| && forall i :: 0 <= i < |hosts| ==> hosts[i].alias in ids
    ensures UpsertAll(profiles, hosts[k..], ids, naming) == UpsertAll(Upsert(profiles, hosts[k], ids, naming), hosts[k + 1..], ids, naming)
  {
    assert hosts[k..][1..] == hosts[k + 1..];
  }

  lemma {:induction false} UpsertIs(profiles: seq<Profile>, host: HostConfig, ids: map<string, string>, naming: Naming)
    requires host.alias in ids
    ensures var k := FindId(profiles, ids[host.alias]);
      var profile := Overwritten(if k == |profiles| then BLANK else profiles[k], host, ids, naming);
      Upsert(profiles, host, ids, naming)
        == if !naming.valid(profile) then profiles else if k == |profiles| then profiles + [profile] else profiles[k := profile]
  {
  }

  // ----- what an import keeps -----

  predicate UniqueIds(profiles: seq<Profile>) {
    forall i, j :: 0 <= i < j < |profiles| ==> profiles[i].id != profiles[j].id
  }

  /** The generator's ids are new and all different. */
  predicate FreshIds(profiles: seq<Profile>, newIds: seq<string>) {
    && (forall i, j :: 0 <= i < j < |newIds| ==> newIds[i] != newIds[j])
    && forall i, k :: 0 <= i < |newIds| && 0 <= k < |profiles| ==> newIds[i] != profiles[k].id
  }

  /** Ids that no profile outside the group has. */
  predicate OnlyInGroup(profiles: seq<Profile>, ids: map<string, string>) {
    forall alias, k :: alias in ids && 0 <= k < |profiles| && profiles[k].id == ids[alias] ==> profiles[k].group == GROUP
  }

  /** `after` keeps every profile's place and id, and every profile outside the group altogether. */
  predicate KeepsOthers(before: seq<Profile>, after: seq<Profile>) {
    && |before| <= |after|
    && forall k :: 0 <= k < |before| ==>
         after[k].id == before[k].id && (before[k].group != GROUP ==> after[k] == before[k]) && (before[k].group == GROUP ==> after[k].group == GROUP)
  }

  predicate NewOnesInGroup(before: seq<Profile>, after: seq<Profile>) {
    forall k :: |before| <= k < |after| ==> after[k].group == GROUP
  }

  lemma {:induction false} AssignedIdsInGroup(profiles: seq<Profile>, hosts: seq<HostConfig>, newIds: seq<string>, naming: Naming)
    requires |newIds| == |hosts| && UniqueIds(profiles) && FreshIds(profiles, newIds)
    ensures OnlyInGroup(profiles, AssignIds(profiles, hosts, newIds, naming))
  {
    if hosts != [] {
      var last := |hosts| - 1;
      AssignedIdsInGroup(profiles, hosts[..last], newIds[..last], naming);
      var found := FindImported(profiles, hosts[last].alias, naming);
      forall k | 0 <= k < |profiles| && profiles[k].id == IdFor(profiles, hosts[last].alias, newIds[last], naming)
        ensures profiles[k].group == GROUP
      {
        assert found < |profiles|;
        assert k == found;
      }
    }
  }

  lemma {:induction false} UpsertKeeps(profiles: seq<Profile>, host: HostConfig, ids: map<string, string>, naming: Naming)
    requires host.alias in ids && UniqueIds(profiles) && OnlyInGroup(profiles, ids)
    ensures var after := Upsert(profiles, host, ids, naming);
      UniqueIds(after) && OnlyInGroup(after, ids) && KeepsOthers(profiles, after) && NewOnesInGroup(profiles, after)
  {
    var k := FindId(profiles, ids[host.alias]);
    var after := Upsert(profiles, host, ids, naming);
    hide FindId;
    assert forall i :: 0 <= i < |profiles| ==> after[i].id == profiles[i].id;
  }

  lemma {:induction false} UpsertAllKeeps(profiles: seq<Profile>, hosts: seq<HostConfig>, ids: map<string, string>, naming: Naming)
    requires forall k :: 0 <= k < |hosts| ==> hosts[k].alias in ids
    requires UniqueIds(profiles) && OnlyInGroup(profiles, ids)
    ensures var after := UpsertAll(profiles, hosts, ids, naming);
      UniqueIds(after) && KeepsOthers(profiles, after) && NewOnesInGroup(profiles, after)
    decreases |hosts|
  {
    if hosts != [] {
      var next := Upsert(profiles, hosts[0], ids, naming);
      UpsertKeeps(profiles, hosts[0], ids, naming);
      hide Upsert, OnlyInGroup, UniqueIds;
      UpsertAllKeeps(next, hosts[1..], ids, naming);
      KeepsOthersTransitive(profiles, next, UpsertAll(next, hosts[1..], ids, naming));
    }
  }

  lemma {:induction false} KeepsOthersTransitive(a: seq<Profile>, b: seq<Profile>, c: seq<Profile>)
    requires KeepsOthers(a, b) && KeepsOthers(b, c) && NewOnesInGroup(a, b) && NewOnesInGroup(b, c)
    ensures KeepsOthers(a, c) && NewOnesInGroup(a, c)
  {
  }

  /** In any import, profiles outside the group are unchanged and in place, and ids stay unique. */
  lemma {:induction false} ImportKeepsOtherProfiles(profiles: seq<Profile>, hosts: seq<HostConfig>, newIds: seq<string>, naming: Naming)
    requires |newIds| == |hosts| && UniqueIds(profiles) && FreshIds(profiles, newIds)
    ensures var after := Import(profiles, hosts, newIds, naming);
      && UniqueIds(after)
      && |profiles| <= |after|
      && (forall k :: 0 <= k < |profiles| && profiles[k].group != GROUP ==> after[k] == profiles[k])
      && (forall k :: 0 <= k < |profiles| ==> after[k].id == profiles[k].id)
      && (forall k :: |profiles| <= k < |after| ==> after[k].group == GROUP)
  {
    var ids := AssignIds(profiles, hosts, newIds, naming);
    AssignsAllAliases(profiles, hosts, newIds, naming);
    AssignedIdsInGroup(profiles, hosts, newIds, naming);
    hide AssignIds, OnlyInGroup, UpsertAll;
    UpsertAllKeeps(profiles, hosts, ids, naming);
  }

  /** No imported profile jumps through itself. */
  lemma {:induction false} NoJumpThroughItself(stored: Profile, host: HostConfig, ids: map<string, string>, naming: Naming)
    requires host.alias in ids
    ensures var profile := Overwritten(stored, host, ids, naming);
      profile.id !in profile.jumpProfileIds && |profile.jumpProfileIds| <= 1
  {
  }

  // ----- importing again -----

  function Aliases(hosts: seq<HostConfig>): set<string> {
    set k | 0 <= k < |hosts| :: hosts[k].alias
  }

  predicate DistinctAliases(hosts: seq<HostConfig>, naming: Naming) {
    forall i, j :: 0 <= i < j < |hosts| ==> naming.fold(hosts[i].alias) != naming.fold(hosts[j].alias)
  }

  /** What is stored under the host's id before the second pass. */
  function StoredFor(profiles: seq<Profile>, host: HostConfig, ids: map<string, string>): Profile
    requires host.alias in ids
  {
    var k := FindId(profiles, ids[host.alias]);
    if k == |profiles| then BLANK else profiles[k]
  }

  /** Every host makes a valid profile. */
  predicate AllValid(profiles: seq<Profile>, hosts: seq<HostConfig>, ids: map<string, string>, naming: Naming)
    requires forall k :: 0 <= k < |hosts| ==> hosts[k].alias in ids
  {
    forall k :: 0 <= k < |hosts| ==> naming.valid(Overwritten(StoredFor(profiles, hosts[k], ids), hosts[k], ids, naming))
  }

  /** Every host of this import makes a valid profile. */
  predicate HostsValid(profiles: seq<Profile>, hosts: seq<HostConfig>, newIds: seq<string>, naming: Naming)
    requires |newIds| == |hosts|
  {
    AssignsAllAliases(profiles, hosts, newIds, naming);
    AllValid(profiles, hosts, AssignIds(profiles, hosts, newIds, naming), naming)
  }

  lemma {:induction false} AliasesSnoc(hosts: seq<HostConfig>)
    requires hosts != []
    ensures Aliases(hosts) == Aliases(hosts[..|hosts| - 1]) + {hosts[|hosts| - 1].alias}
  {
    var last := |hosts| - 1;
    assert forall k :: 0 <= k < last ==> hosts[..last][k] == hosts[k];
  }

  predicate IsWritten(before: seq<Profile>, after: seq<Profile>, host: HostConfig, ids: map<string, string>, naming: Naming)
    requires host.alias in ids
  {
    var k := FindId(after, ids[host.alias]);
    k < |after| && after[k] == Overwritten(StoredFor(before, host, ids), host, ids, naming)
  }

  /** Writing one host leaves the profiles with other ids alone. */
  lemma {:induction false} UpsertElsewhere(profiles: seq<Profile>, host: HostConfig, ids: map<string, string>, naming: Naming, id: string)
    requires host.alias in ids && UniqueIds(profiles) && id != ids[host.alias]
    ensures var after := Upsert(profiles, host, ids, naming);
      var k := FindId(profiles, id);
      var k' := FindId(after, id);
      (k < |profiles| <==> k' < |after|) && (k < |profiles| ==> after[k'] == profiles[k])
  {
    var at := FindId(profiles, ids[host.alias]);
    var after := Upsert(profiles, host, ids, naming);
    var k, k' := FindId(profiles, id), FindId(after, id);
    assert forall i :: 0 <= i < |profiles| ==> after[i].id == profiles[i].id;
    hide Overwritten;
  }

  /** Writing one valid host. */
  lemma {:induction false} UpsertHere(profiles: seq<Profile>, host: HostConfig, ids: map<string, string>, naming: Naming)
    requires host.alias in ids && UniqueIds(profiles)
    requires naming.valid(Overwritten(StoredFor(profiles, host, ids), host, ids, naming))
    ensures IsWritten(profiles, Upsert(profiles, host, ids, naming), host, ids, naming)
  {
    var at := FindId(profiles, ids[host.alias]);
    var after := Upsert(profiles, host, ids, naming);
    assert forall i :: 0 <= i < at ==> after[i].id == profiles[i].id;
    assert after[at].id == ids[host.alias];
  }

  lemma {:induction false} FoundMeansReused(profiles: seq<Profile>, alias: string, newId: string, naming: Naming)
    requires FindImported(profiles, alias, naming) < |profiles|
    ensures IdFor(profiles, alias, newId, naming) == profiles[FindImported(profiles, alias, naming)].id
  {
  }

  /** What a jump names: user and port are dropped, and nothing else. */
  lemma {:induction false} JumpAliasReads(user: string, host: string, port: string)
    requires '@' !in host && ':' !in host && '@' !in port
    ensures JumpAlias(host) == host && JumpAlias(host + ":" + port) == host
    ensures JumpAlias(user + "@" + host) == host && JumpAlias(user + "@" + host + ":" + port) == host
  {
    hide LastSection, FirstSection;
    FirstSectionEnds(host, ':', "");
    FirstSectionEnds(host, ':', port);
    assert host + [] == host;
    assert user + "@" + host + ":" + port == user + "@" + (host + ":" + port);
    LastSectionStarts(user, '@', host);
    LastSectionStarts(user, '@', host + ":" + port);
  }

  lemma {:induction false} FirstSectionEnds(s: string, separator: char, rest: string)
    requires separator !in s
    ensures FirstSection(s, separator) == s && FirstSection(s + [separator] + rest, separator) == s
  {
    var long := s + [separator] + rest;
    if s != "" {
      FirstSectionEnds(s[1..], separator, rest);
      assert long[0] == s[0] && long[1..] == s[1..] + [separator] + rest;
    }
  }

  lemma {:induction false} LastSectionStarts(front: string, separator: char, s: string)
    requires separator !in s
    ensures LastSection(front + [separator] + s, separator) == s
  {
    var long := front + [separator] + s;
    if s != "" {
      var last := |s| - 1;
      LastSectionStarts(front, separator, s[..last]);
      assert long[|long| - 1] == s[last] && long[..|long| - 1] == front + [separator] + s[..last];
      assert s == s[..last] + [s[last]];
    }
  }
}
