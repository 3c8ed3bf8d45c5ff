/**
 What an import of OpenSSH hosts stores, field by field.
 */
module OpenSshFields {
  import opened OpenSshImport
  import opened OpenSshReimport
  import opened Texts

  /** The options stored under an id before the import; new profiles start without any. */
  function OptionsBefore(profiles: seq<Profile>, id: string): string {
    if Content(profiles, id).Some? then Content(profiles, id).value.options else ""
  }

  /** The configured user, or the default one if none is configured. */
  ghost predicate IsUserOf(username: string, host: HostConfig, naming: Naming) {
    if Blank(host.user) then username == naming.defaultUser
    else exists front, back :: Frames(host.user, front, username, back)
  }

  /** `text` stands between white space, and neither begins nor ends with it. */
  predicate Frames(whole: string, front: string, text: string, back: string) {
    && whole == front + text + back && Blank(front) && Blank(back)
    && text != "" && !IsSpace(text[0]) && !IsSpace(text[|text| - 1])
  }

  /** A jump leads to the profile of the host it names, if that is another host of the list. */
  predicate JumpsAs(jumps: seq<string>, host: HostConfig, ids: map<string, string>, id: string) {
    var via := JumpAlias(host.proxyJump);
    if via in ids && ids[via] != id then jumps == [ids[via]] else jumps == []
  }

  /** The profile is what the host asks for; what OpenSSH does not configure stays as it was stored. */
  ghost predicate Holds(profile: Profile, host: HostConfig, before: seq<Profile>, ids: map<string, string>, naming: Naming)
    requires host.alias in ids
  {
    && profile.id == ids[host.alias]
    && profile.name == host.alias
    && profile.group == "OpenSSH"
    && profile.host == host.hostName
    && 0 <= profile.port < 65536 && (host.port - profile.port) % 65536 == 0
    && IsUserOf(profile.username, host, naming)
    && profile.privateKeyPath == host.identityFile
    && profile.authentication == (if host.identityFile == "" then Agent else PrivateKey)
    && !profile.passphraseRequired && profile.identityReference == None && profile.credentialReference == None
    && JumpsAs(profile.jumpProfileIds, host, ids, profile.id)
    && profile.options == OptionsBefore(before, profile.id)
  }

  /** No valid profile could be stored for the host. */
  ghost predicate IsSkipped(host: HostConfig, before: seq<Profile>, ids: map<string, string>, naming: Naming)
    requires host.alias in ids
  {
    forall profile :: Holds(profile, host, before, ids, naming) ==> !naming.valid(profile)
  }

  /** What stands between the white space is determined by the whole. */
  lemma {:induction false} FramesAt(whole: string, front: string, text: string, back: string)
    requires Frames(whole, front, text, back)
    ensures var end := |front| + |text|;
      && |front| < end <= |whole| && text == whole[|front|..end]
      && !IsSpace(whole[|front|]) && !IsSpace(whole[end - 1])
      && (forall k :: 0 <= k < |front| ==> IsSpace(whole[k]))
      && forall k :: end <= k < |whole| ==> IsSpace(whole[k])
  {
    forall k | |front| + |text| <= k < |whole|
      ensures IsSpace(whole[k])
    {
      assert whole[k] == back[k - |front| - |text|];
    }
  }

  lemma {:induction false} UserIsUnique(whole: string, front: string, text: string, back: string, front': string, text': string, back': string)
    requires Frames(whole, front, text, back) && Frames(whole, front', text', back')
    ensures text == text'
  {
    hide Frames;
    FramesAt(whole, front, text, back);
    FramesAt(whole, front', text', back');
  }

  lemma {:induction false} TrimmedIsUser(username: string, host: HostConfig, naming: Naming)
    ensures IsUserOf(username, host, naming)
      <==> username == if Trimmed(host.user) == "" then naming.defaultUser else Trimmed(host.user)
  {
    hide Trimmed, Blank;
    var front, back := TrimmedExactly(host.user);
    if Trimmed(host.user) != "" {
      assert Frames(host.user, front, Trimmed(host.user), back);
      if exists a, b :: Frames(host.user, a, username, b) {
        var a, b :| Frames(host.user, a, username, b);
        UserIsUnique(host.user, a, username, b, front, Trimmed(host.user), back);
      }
    }
  }

  lemma {:induction false} PortIsUnique(port: int, whole: nat)
    ensures 0 <= port < 65536 && (whole - port) % 65536 == 0 <==> port == whole % 65536
  {
  }

  /** Exactly one profile is what a host asks for. */
  lemma {:induction false} HoldsExactly(profile: Profile, host: HostConfig, before: seq<Profile>, ids: map<string, string>, naming: Naming)
    requires host.alias in ids
    ensures Holds(profile, host, before, ids, naming) <==> profile == Makes(before, host, ids, naming)
  {
    hide Trimmed, JumpAlias, IsUserOf;
    TrimmedIsUser(profile.username, host, naming);
    TrimmedIsUser(Makes(before, host, ids, naming).username, host, naming);
    PortIsUnique(profile.port, host.port);
    PortIsUnique(Makes(before, host, ids, naming).port, host.port);
    StoredIsContent(before, host, ids);
    hide Content, StoredFor;
  }

  /**
   For arbitrary stored profiles with distinct ids and arbitrary hosts: under every id the import leaves what
   the last host with this id asks for that can be stored, and nothing is changed if there is none.
   */
  lemma {:induction false} ImportStores(profiles: seq<Profile>, hosts: seq<HostConfig>, newIds: seq<string>, naming: Naming, id: string)
    returns (w: nat)
    requires |newIds| == |hosts| && UniqueIds(profiles)
    ensures forall k :: 0 <= k < |hosts| ==> hosts[k].alias in AssignIds(profiles, hosts, newIds, naming)
    ensures var ids := AssignIds(profiles, hosts, newIds, naming);
      var content := Content(Import(profiles, hosts, newIds, naming), id);
      && w <= |hosts|
      && (w < |hosts| ==> ids[hosts[w].alias] == id && content.Some? && Holds(content.value, hosts[w], profiles, ids, naming))
      && (w == |hosts| ==> content == Content(profiles, id))
      && forall k :: 0 <= k < |hosts| && (w < k || w == |hosts|) && ids[hosts[k].alias] == id ==> IsSkipped(hosts[k], profiles, ids, naming)
  {
    hide AssignIds, UniqueIds, Content, Makes, Passed, KeepsPlaces, Upsert, UpsertAll, Holds;
    AssignsAllAliases(profiles, hosts, newIds, naming);
    var ids := AssignIds(profiles, hosts, newIds, naming);
    PassedIsUpsertAll(profiles, hosts, |hosts|, ids, naming);
    assert hosts[..|hosts|] == hosts;
    PassedContent(profiles, hosts, |hosts|, ids, naming);
    w := LastWriter(profiles, hosts, |hosts|, ids, id, naming);
    if w < |hosts| {
      HoldsExactly(Makes(profiles, hosts[w], ids, naming), hosts[w], profiles, ids, naming);
    }
    forall k | 0 <= k < |hosts| && (w < k || w == |hosts|) && ids[hosts[k].alias] == id
      ensures IsSkipped(hosts[k], profiles, ids, naming)
    {
      assert !Writes(profiles, hosts[k], ids, id, naming);
      forall profile | Holds(profile, hosts[k], profiles, ids, naming)
        ensures !naming.valid(profile)
      {
        HoldsExactly(profile, hosts[k], profiles, ids, naming);
      }
    }
  }
}
