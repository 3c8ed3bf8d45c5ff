/**
 What the loader of OpenSSH configurations delivers: the parsed hosts sorted by alias, and of
 neighbours that are equal up to case only the first.  Twins with another alias sorted between
 them pass, so the import has to cope with them.
 */
module OpenSshConfig {
  import opened OpenSshImport
  import opened Texts
  import opened OpenSshReimport

  /** The order of texts by their characters. */
  predicate Less(a: string, b: string) {
    b != "" && (a == "" || a[0] < b[0] || (a[0] == b[0] && Less(a[1..], b[1..])))
  }

  /** Sorting with equal aliases kept in their order. */
  function StableSorted(hosts: seq<HostConfig>): seq<HostConfig> {
    if hosts == [] then [] else Placed(hosts[0], StableSorted(hosts[1..]))
  }

  function Placed(host: HostConfig, sorted: seq<HostConfig>): seq<HostConfig> {
    if sorted == [] || !Less(sorted[0].alias, host.alias) then [host] + sorted
    else [sorted[0]] + Placed(host, sorted[1..])
  }

  /** Of neighbours that are alike to the last one kept, only that one stays. */
  function WithoutNeighbours(hosts: seq<HostConfig>, naming: Naming): seq<HostConfig>
    decreases |hosts|
  {
    if |hosts| <= 1 then hosts
    else if Alike(hosts[0].alias, hosts[1].alias, naming) then WithoutNeighbours([hosts[0]] + hosts[2..], naming)
    else [hosts[0]] + WithoutNeighbours(hosts[1..], naming)
  }

  /** The end of the loader, for whatever hosts were parsed. */
  function Loaded(parsed: seq<HostConfig>, naming: Naming): seq<HostConfig> {
    WithoutNeighbours(StableSorted(parsed), naming)
  }

  predicate Sorted(hosts: seq<HostConfig>) {
    forall k :: 1 <= k < |hosts| ==> !Less(hosts[k].alias, hosts[k - 1].alias)
  }

  /** Strictly sorted, and no two neighbours equal up to case. */
  predicate Deliverable(hosts: seq<HostConfig>, naming: Naming) {
    forall k :: 1 <= k < |hosts| ==> Less(hosts[k - 1].alias, hosts[k].alias) && !Alike(hosts[k - 1].alias, hosts[k].alias, naming)
  }

  lemma {:induction false} LessIsTotal(a: string, b: string)
    ensures Less(a, b) ==> !Less(b, a) && a != b
    ensures a != b ==> Less(a, b) || Less(b, a)
  {
    if a != "" && b != "" {
      LessIsTotal(a[1..], b[1..]);
      assert a == [a[0]] + a[1..] && b == [b[0]] + b[1..];
    }
  }

  lemma {:induction false} LessIsTransitive(a: string, b: string, c: string)
    requires Less(a, b) && Less(b, c)
    ensures Less(a, c)
  {
    if a != "" && a[0] == b[0] == c[0] {
      LessIsTransitive(a[1..], b[1..], c[1..]);
    }
  }

  lemma {:induction false} SortedCons(host: HostConfig, rest: seq<HostConfig>)
    ensures Sorted([host] + rest) <==> Sorted(rest) && (rest != [] ==> !Less(rest[0].alias, host.alias))
  {
    var all := [host] + rest;
    if Sorted(all) {
      forall k | 1 <= k < |rest|
        ensures !Less(rest[k].alias, rest[k - 1].alias)
      {
        assert !Less(all[k + 1].alias, all[k].alias);
      }
      assert rest != [] ==> !Less(all[1].alias, all[0].alias);
    }
    if Sorted(rest) && (rest != [] ==> !Less(rest[0].alias, host.alias)) {
      forall k | 1 <= k < |all|
        ensures !Less(all[k].alias, all[k - 1].alias)
      {
        assert all[k] == rest[k - 1] && (k > 1 ==> all[k - 1] == rest[k - 2]);
      }
    }
  }

  lemma {:induction false} DeliverableCons(host: HostConfig, rest: seq<HostConfig>, naming: Naming)
    ensures Deliverable([host] + rest, naming) <==>
      Deliverable(rest, naming) && (rest != [] ==> Less(host.alias, rest[0].alias) && !Alike(host.alias, rest[0].alias, naming))
  {
    var all := [host] + rest;
    if Deliverable(all, naming) {
      forall k | 1 <= k < |rest|
        ensures Less(rest[k - 1].alias, rest[k].alias) && !Alike(rest[k - 1].alias, rest[k].alias, naming)
      {
        assert Less(all[k].alias, all[k + 1].alias) && !Alike(all[k].alias, all[k + 1].alias, naming);
      }
      assert rest != [] ==> Less(all[0].alias, all[1].alias) && !Alike(all[0].alias, all[1].alias, naming);
    }
    if Deliverable(rest, naming) && (rest != [] ==> Less(host.alias, rest[0].alias) && !Alike(host.alias, rest[0].alias, naming)) {
      forall k | 1 <= k < |all|
        ensures Less(all[k - 1].alias, all[k].alias) && !Alike(all[k - 1].alias, all[k].alias, naming)
      {
        assert all[k] == rest[k - 1] && (k > 1 ==> all[k - 1] == rest[k - 2]);
      }
    }
  }

  lemma {:induction false} PlacedIsSorted(host: HostConfig, sorted: seq<HostConfig>)
    requires Sorted(sorted)
    ensures Sorted(Placed(host, sorted)) && Placed(host, sorted) != []
    ensures Placed(host, sorted)[0] == host || (sorted != [] && Placed(host, sorted)[0] == sorted[0])
  {
    hide Sorted;
    SortedCons(host, sorted);
    if sorted != [] && Less(sorted[0].alias, host.alias) {
      assert sorted == [sorted[0]] + sorted[1..];
      SortedCons(sorted[0], sorted[1..]);
      PlacedIsSorted(host, sorted[1..]);
      SortedCons(sorted[0], Placed(host, sorted[1..]));
      LessIsTotal(sorted[0].alias, host.alias);
    }
  }

  lemma {:induction false} StableSortedIsSorted(hosts: seq<HostConfig>)
    ensures Sorted(StableSorted(hosts))
  {
    if hosts != [] {
      StableSortedIsSorted(hosts[1..]);
      hide Sorted;
      PlacedIsSorted(hosts[0], StableSorted(hosts[1..]));
    }
  }

  lemma {:induction false} NotLessTransitive(a: string, b: string, c: string)
    requires !Less(b, a) && !Less(c, b)
    ensures !Less(c, a)
  {
    LessIsTotal(a, b);
    LessIsTotal(b, c);
    LessIsTotal(a, c);
    if Less(a, b) && Less(b, c) {
      LessIsTransitive(a, b, c);
    }
  }

  lemma {:induction false} WithoutNeighboursDelivers(hosts: seq<HostConfig>, naming: Naming)
    requires Sorted(hosts)
    ensures Deliverable(WithoutNeighbours(hosts, naming), naming)
    ensures hosts != [] ==> WithoutNeighbours(hosts, naming) != [] && WithoutNeighbours(hosts, naming)[0] == hosts[0]
    decreases |hosts|
  {
    if |hosts| > 1 {
      var first, second, rest := hosts[0], hosts[1], hosts[2..];
      assert hosts == [first] + hosts[1..] && hosts[1..] == [second] + rest;
      SortedCons(first, hosts[1..]);
      SortedCons(second, rest);
      hide Sorted, Deliverable;
      if Alike(first.alias, second.alias, naming) {
        SortedCons(first, rest);
        if rest != [] {
          NotLessTransitive(first.alias, second.alias, rest[0].alias);
        }
        WithoutNeighboursDelivers([first] + rest, naming);
      } else {
        WithoutNeighboursDelivers(hosts[1..], naming);
        DeliverableCons(first, WithoutNeighbours(hosts[1..], naming), naming);
        LessIsTotal(first.alias, second.alias);
      }
    }
  }

  lemma {:induction false} DeliverableStays(hosts: seq<HostConfig>, naming: Naming)
    requires Deliverable(hosts, naming)
    ensures StableSorted(hosts) == hosts && WithoutNeighbours(hosts, naming) == hosts
  {
    if hosts != [] {
      assert hosts == [hosts[0]] + hosts[1..];
      DeliverableCons(hosts[0], hosts[1..], naming);
      hide Deliverable;
      DeliverableStays(hosts[1..], naming);
      if |hosts| > 1 {
        LessIsTotal(hosts[0].alias, hosts[1].alias);
      }
    }
  }

  /** The loader can deliver exactly the lists that are strictly sorted and have no neighbours equal up to case. */
  lemma {:induction false} LoaderDeliversExactly(hosts: seq<HostConfig>, naming: Naming)
    ensures Deliverable(hosts, naming) <==> exists parsed :: Loaded(parsed, naming) == hosts
  {
    hide Deliverable;
    if Deliverable(hosts, naming) {
      DeliverableStays(hosts, naming);
      assert Loaded(hosts, naming) == hosts;
    }
    forall parsed | Loaded(parsed, naming) == hosts
      ensures Deliverable(hosts, naming)
    {
      StableSortedIsSorted(parsed);
      WithoutNeighboursDelivers(StableSorted(parsed), naming);
    }
  }

  lemma {:induction false} DeliverableIsStrict(hosts: seq<HostConfig>, i: nat, j: nat, naming: Naming)
    requires Deliverable(hosts, naming) && i < j < |hosts|
    ensures Less(hosts[i].alias, hosts[j].alias) && hosts[i].alias != hosts[j].alias
  {
    assert Less(hosts[j - 1].alias, hosts[j].alias);
    if i < j - 1 {
      DeliverableIsStrict(hosts, i, j - 1, naming);
      LessIsTransitive(hosts[i].alias, hosts[j - 1].alias, hosts[j].alias);
    }
    LessIsTotal(hosts[i].alias, hosts[j].alias);
  }

  // ----- which hosts are delivered -----

  /** The first host with exactly this alias. */
  function FirstNamed(hosts: seq<HostConfig>, alias: string): Option<HostConfig> {
    if hosts == [] then None else if hosts[0].alias == alias then Some(hosts[0]) else FirstNamed(hosts[1..], alias)
  }

  lemma {:induction false} FirstNamedCons(host: HostConfig, rest: seq<HostConfig>, alias: string)
    ensures FirstNamed([host] + rest, alias) == if host.alias == alias then Some(host) else FirstNamed(rest, alias)
  {
    assert ([host] + rest)[1..] == rest;
  }

  lemma {:induction false} FirstPlaced(host: HostConfig, sorted: seq<HostConfig>, alias: string)
    ensures FirstNamed(Placed(host, sorted), alias) == if host.alias == alias then Some(host) else FirstNamed(sorted, alias)
  {
    hide FirstNamed, Less;
    if sorted == [] || !Less(sorted[0].alias, host.alias) {
      FirstNamedCons(host, sorted, alias);
    } else {
      assert sorted == [sorted[0]] + sorted[1..];
      FirstNamedCons(sorted[0], sorted[1..], alias);
      FirstNamedCons(sorted[0], Placed(host, sorted[1..]), alias);
      FirstPlaced(host, sorted[1..], alias);
      LessIsTotal(sorted[0].alias, host.alias);
    }
  }

  /** Sorting is stable. */
  lemma {:induction false} FirstSorted(hosts: seq<HostConfig>, alias: string)
    ensures FirstNamed(StableSorted(hosts), alias) == FirstNamed(hosts, alias)
  {
    if hosts != [] {
      FirstSorted(hosts[1..], alias);
      FirstPlaced(hosts[0], StableSorted(hosts[1..]), alias);
    }
  }

  lemma {:induction false} FirstIsMember(hosts: seq<HostConfig>, alias: string)
    ensures FirstNamed(hosts, alias).Some? <==> exists k :: 0 <= k < |hosts| && hosts[k].alias == alias
    ensures FirstNamed(hosts, alias).Some? ==> FirstNamed(hosts, alias).value in hosts && FirstNamed(hosts, alias).value.alias == alias
  {
    if hosts != [] {
      FirstIsMember(hosts[1..], alias);
      if exists k :: 0 <= k < |hosts| && hosts[k].alias == alias {
        var k :| 0 <= k < |hosts| && hosts[k].alias == alias;
        assert k > 0 ==> hosts[1..][k - 1].alias == alias;
      }
      if FirstNamed(hosts[1..], alias).Some? {
        var k :| 0 <= k < |hosts[1..]| && hosts[1..][k].alias == alias;
        assert hosts[k + 1].alias == alias;
      }
    }
  }

  lemma {:induction false} SortedFromFirst(hosts: seq<HostConfig>)
    requires Sorted(hosts) && hosts != []
    ensures forall host :: host in hosts ==> !Less(host.alias, hosts[0].alias)
  {
    if |hosts| > 1 {
      assert hosts == [hosts[0]] + hosts[1..];
      SortedCons(hosts[0], hosts[1..]);
      SortedFromFirst(hosts[1..]);
      forall host | host in hosts[1..]
        ensures !Less(host.alias, hosts[0].alias)
      {
        NotLessTransitive(hosts[0].alias, hosts[1].alias, host.alias);
      }
    }
    LessIsTotal(hosts[0].alias, hosts[0].alias);
  }

  lemma {:induction false} NeighboursAreMembers(hosts: seq<HostConfig>, naming: Naming)
    ensures forall host :: host in WithoutNeighbours(hosts, naming) ==> host in hosts
    decreases |hosts|
  {
    if |hosts| > 1 {
      NeighboursAreMembers([hosts[0]] + hosts[2..], naming);
      NeighboursAreMembers(hosts[1..], naming);
    }
  }

  /** The place after which an alias would be sorted in: the list's alike host there stands for it. */
  predicate StandsFor(hosts: seq<HostConfig>, j: nat, alias: string, naming: Naming) {
    && j < |hosts| && Alike(hosts[j].alias, alias, naming) && !Less(alias, hosts[j].alias)
    && (j + 1 < |hosts| ==> Less(alias, hosts[j + 1].alias))
  }

  /** Dropping a neighbour: the one before it stands for it. */
  lemma {:induction false} DroppedIsStoodFor(first: HostConfig, second: HostConfig, rest: seq<HostConfig>, naming: Naming)
    requires Sorted([first] + ([second] + rest)) && Alike(first.alias, second.alias, naming)
    ensures StandsFor(WithoutNeighbours([first] + rest, naming), 0, second.alias, naming)
    ensures first.alias != second.alias ==> FirstNamed(WithoutNeighbours([first] + rest, naming), second.alias) == None
  {
    var kept := WithoutNeighbours([first] + rest, naming);
    assert ([first] + ([second] + rest))[1..] == [second] + rest;
    SortedCons(first, [second] + rest);
    SortedCons(second, rest);
    SortedCons(first, rest);
    if rest != [] {
      NotLessTransitive(first.alias, second.alias, rest[0].alias);
    }
    WithoutNeighboursDelivers([first] + rest, naming);
    NeighboursAreMembers([first] + rest, naming);
    SortedFromFirst([second] + rest);
    hide Sorted, WithoutNeighbours;
    if |kept| > 1 {
      assert Less(kept[0].alias, kept[1].alias);
      LessIsTotal(kept[0].alias, kept[1].alias);
      assert kept[1] in kept && kept[1] in [first] + rest && kept[1] != first;
      assert kept[1] in [second] + rest;
      LessIsTotal(second.alias, kept[1].alias);
    }
    FirstIsMember(kept, second.alias);
    hide FirstNamed;
    forall k | 0 <= k < |kept| && first.alias != second.alias
      ensures kept[k].alias != second.alias
    {
      if k > 1 {
        DeliverableIsStrict(kept, 1, k, naming);
        LessIsTotal(second.alias, kept[1].alias);
        LessIsTotal(kept[1].alias, kept[k].alias);
      }
    }
  }

  lemma {:induction false} NeighboursKeep(hosts: seq<HostConfig>, alias: string, naming: Naming) returns (j: nat)
    requires Sorted(hosts)
    ensures FirstNamed(WithoutNeighbours(hosts, naming), alias) in {None, FirstNamed(hosts, alias)}
    ensures FirstNamed(hosts, alias).Some? ==> StandsFor(WithoutNeighbours(hosts, naming), j, alias, naming)
    decreases |hosts|
  {
    hide FirstNamed, Sorted, Less;
    j := 0;
    if |hosts| <= 1 {
      FirstIsMember(hosts, alias);
      LessIsTotal(alias, alias);
      return;
    }
    var first, second, rest := hosts[0], hosts[1], hosts[2..];
    assert hosts == [first] + hosts[1..] && hosts[1..] == [second] + rest;
    SortedCons(first, hosts[1..]);
    SortedCons(second, rest);
    FirstNamedCons(first, hosts[1..], alias);
    FirstNamedCons(second, rest, alias);
    FirstNamedCons(first, rest, alias);
    if Alike(first.alias, second.alias, naming) {
      DroppedIsStoodFor(first, second, rest, naming);
      SortedCons(first, rest);
      if rest != [] {
        NotLessTransitive(first.alias, second.alias, rest[0].alias);
      }
      j := NeighboursKeep([first] + rest, alias, naming);
      if alias == second.alias && alias != first.alias {
        j := 0;
      }
    } else {
      var kept := WithoutNeighbours(hosts[1..], naming);
      WithoutNeighboursDelivers(hosts[1..], naming);
      FirstNamedCons(first, kept, alias);
      if alias == first.alias {
        LessIsTotal(first.alias, second.alias);
        LessIsTotal(alias, alias);
      } else {
        j := NeighboursKeep(hosts[1..], alias, naming);
        j := j + 1;
      }
    }
  }

  /**
   Which hosts are delivered: of those with the same alias only the first that was parsed; and no alias
   is lost but to an alike one that is delivered and sorted directly before the place it would have.
   */
  lemma {:induction false} LoaderKeeps(parsed: seq<HostConfig>, alias: string, naming: Naming) returns (j: nat)
    ensures FirstNamed(Loaded(parsed, naming), alias) in {None, FirstNamed(parsed, alias)}
    ensures FirstNamed(parsed, alias).Some? ==> StandsFor(Loaded(parsed, naming), j, alias, naming)
  {
    hide FirstNamed, Sorted, StandsFor, WithoutNeighbours, StableSorted;
    StableSortedIsSorted(parsed);
    FirstSorted(parsed, alias);
    j := NeighboursKeep(StableSorted(parsed), alias, naming);
  }

  // ----- importing what the loader delivers -----

  /** Two hosts equal up to case are imported under a name that is stored already. */
  predicate TwinsStored(profiles: seq<Profile>, hosts: seq<HostConfig>, naming: Naming) {
    forall i, j :: 0 <= i < j < |hosts| && Alike(hosts[i].alias, hosts[j].alias, naming) ==> IsStored(profiles, hosts[i].alias, naming)
  }

  /** For such lists the condition for a fixed point comes down to the twins. */
  lemma {:induction false} SettledIfTwinsStored(profiles: seq<Profile>, hosts: seq<HostConfig>, naming: Naming)
    requires Deliverable(hosts, naming)
    ensures Settled(profiles, hosts, naming) <==> TwinsStored(profiles, hosts, naming)
  {
    hide Deliverable, FindImported, FirstAlike, Aliases;
    if TwinsStored(profiles, hosts, naming) {
      forall j | 0 <= j < |hosts|
        ensures SettledAt(profiles, hosts, j, naming)
      {
        OnlyAlike(profiles, hosts, j, naming);
        var jump := JumpAlias(hosts[j].proxyJump);
        if jump in Aliases(hosts) {
          var i := IndexOfAlias(hosts, jump);
          OnlyAlike(profiles, hosts, i, naming);
        }
      }
    }
    if Settled(profiles, hosts, naming) {
      forall i, j | 0 <= i < j < |hosts| && Alike(hosts[i].alias, hosts[j].alias, naming)
        ensures IsStored(profiles, hosts[i].alias, naming)
      {
        var l := LastAlike(hosts, j, naming);
        assert SettledAt(profiles, hosts, l, naming);
        FoldMatters(profiles, hosts[i].alias, hosts[l].alias, naming);
        var f := FirstAlike(hosts, hosts[l].alias, naming);
        DeliverableIsStrict(hosts, f, l, naming);
      }
    }
  }

  lemma {:induction false} OnlyAlike(profiles: seq<Profile>, hosts: seq<HostConfig>, j: nat, naming: Naming)
    requires TwinsStored(profiles, hosts, naming) && j < |hosts|
    ensures IsStored(profiles, hosts[j].alias, naming) || FirstAlike(hosts, hosts[j].alias, naming) == j
  {
    hide FindImported;
    var f := FirstAlike(hosts, hosts[j].alias, naming);
    FoldMatters(profiles, hosts[f].alias, hosts[j].alias, naming);
  }

  /**
   Importing a configuration that has not changed a second time changes nothing if and only if hosts
   that are equal up to case were stored before the first import.
   */
  lemma {:induction false} ReloadIsFixedExactly(profiles: seq<Profile>, parsed: seq<HostConfig>, newIds: seq<string>, laterIds: seq<string>, naming: Naming)
    requires |newIds| == |laterIds| == |Loaded(parsed, naming)| && Importable(profiles, Loaded(parsed, naming), newIds, naming)
    requires HostsValid(Import(profiles, Loaded(parsed, naming), newIds, naming), Loaded(parsed, naming), laterIds, naming)
    ensures var hosts := Loaded(parsed, naming);
      var after := Import(profiles, hosts, newIds, naming);
      Import(after, hosts, laterIds, naming) == after <==> TwinsStored(profiles, hosts, naming)
  {
    hide Import, Importable, HostsValid, Settled, TwinsStored, Loaded, Deliverable;
    var hosts := Loaded(parsed, naming);
    LoaderDeliversExactly(hosts, naming);
    SettledIfTwinsStored(profiles, hosts, naming);
    ReimportIsFixedExactly(profiles, hosts, newIds, laterIds, naming);
  }

  /**
   It fails for the hosts "DB", "a" and "db": sorting puts "a" between the twins, so the loader delivers
   all three.  If no profile has the name of the twins yet, importing the same hosts again renames
   the profile "DB", whatever else is stored.
   */
  lemma {:induction false} CaseTwinsAreNotFixed(profiles: seq<Profile>, upper: HostConfig, between: HostConfig, lower: HostConfig,
                                                newIds: seq<string>, laterIds: seq<string>, naming: Naming)
    requires upper.alias == "DB" && between.alias == "a" && lower.alias == "db"
    requires naming.fold("DB") == naming.fold("db") != naming.fold("a")
    requires |newIds| == |laterIds| == 3 && Importable(profiles, [upper, between, lower], newIds, naming) && !IsStored(profiles, "db", naming)
    requires HostsValid(Import(profiles, [upper, between, lower], newIds, naming), [upper, between, lower], laterIds, naming)
    ensures var hosts := [upper, between, lower];
      var after := Import(profiles, hosts, newIds, naming);
      var later := Import(after, hosts, laterIds, naming);
      var k := FindImported(after, "db", naming);
      && Loaded(hosts, naming) == hosts
      && k < |after| <= |later| && after[k].name == "DB" && later[k].name == "db" && later != after
  {
    hide Import, Importable, HostsValid, FindImported, Loaded;
    var hosts := [upper, between, lower];
    assert Less("DB", "a") && Less("a", "db");
    assert Deliverable(hosts, naming);
    DeliverableStays(hosts, naming);
    LoadedIs(hosts, naming);
    assert Alike(hosts[0].alias, hosts[2].alias, naming);
    assert FirstAlike(hosts, "db", naming) == 0;
    TwinIsRenamed(profiles, hosts, newIds, laterIds, 2, naming);
  }

  lemma {:induction false} LoadedIs(parsed: seq<HostConfig>, naming: Naming)
    ensures Loaded(parsed, naming) == WithoutNeighbours(StableSorted(parsed), naming)
  {
  }

  // ----- such imports happen -----

  predicate NonEmptyWithin(text: string, limit: nat) {
    text != "" && |text| <= limit
  }

  /** Letters, digits, '-' and '_', as in the identifiers of the generator. */
  predicate IsReference(id: string) {
    NonEmptyWithin(id, 128) && forall c :: c in id ==> 'a' <= c <= 'z' || 'A' <= c <= 'Z' || '0' <= c <= '9' || c == '-' || c == '_'
  }

  /** What the validator asks of the fields that an import writes. */
  predicate ValidFields(profile: Profile) {
    && NonEmptyWithin(profile.id, 128) && NonEmptyWithin(profile.name, 256) && |profile.group| <= 128
    && NonEmptyWithin(profile.host, 1024) && NonEmptyWithin(profile.username, 256) && profile.port != 0
    && (profile.identityReference.Some? ==> IsReference(profile.identityReference.value))
    && (profile.credentialReference.Some? ==> IsReference(profile.credentialReference.value))
    && |profile.jumpProfileIds| <= 3
    && (forall k :: 0 <= k < |profile.jumpProfileIds| ==> profile.jumpProfileIds[k] != profile.id && IsReference(profile.jumpProfileIds[k]))
    && (forall i, k :: 0 <= i < k < |profile.jumpProfileIds| ==> profile.jumpProfileIds[i] != profile.jumpProfileIds[k])
    && (profile.identityReference.Some? ||
        match profile.authentication
        case PrivateKey => NonEmptyWithin(profile.privateKeyPath, 32767)
        case Password => profile.privateKeyPath == "" && !profile.passphraseRequired
        case Agent => profile.privateKeyPath == "" && !profile.passphraseRequired && profile.credentialReference.None?)
  }

  predicate ValidHost(host: HostConfig, naming: Naming) {
    && NonEmptyWithin(host.alias, 256) && NonEmptyWithin(host.hostName, 1024) && 0 < host.port < 0x1_0000
    && NonEmptyWithin(naming.defaultUser, 256) && |Trimmed(host.user)| <= 256 && |host.identityFile| <= 32767
  }

  function Options(profiles: seq<Profile>): set<string> {
    {BLANK.options} + set k | 0 <= k < |profiles| :: profiles[k].options
  }

  /** The validator accepts these fields together with the other options of a blank or a stored profile. */
  ghost predicate AcceptsFields(profiles: seq<Profile>, naming: Naming) {
    forall profile :: ValidFields(profile) && profile.options in Options(profiles) ==> naming.valid(profile)
  }

  ghost predicate AllReferences(ids: seq<string>) {
    forall k :: 0 <= k < |ids| ==> IsReference(ids[k])
  }

  ghost predicate StoredReferences(profiles: seq<Profile>) {
    forall k :: 0 <= k < |profiles| ==> IsReference(profiles[k].id)
  }

  ghost predicate ValidHosts(hosts: seq<HostConfig>, naming: Naming) {
    forall k :: 0 <= k < |hosts| ==> ValidHost(hosts[k], naming)
  }

  /** Every id that the first pass assigns is a reference. */
  lemma {:induction false} AssignsReferences(profiles: seq<Profile>, hosts: seq<HostConfig>, newIds: seq<string>, alias: string, naming: Naming)
    requires |newIds| == |hosts| && AllReferences(newIds) && StoredReferences(profiles)
    requires alias in AssignIds(profiles, hosts, newIds, naming)
    ensures IsReference(AssignIds(profiles, hosts, newIds, naming)[alias])
  {
    hide AssignIds, Aliases, FindImported, IsReference;
    AssignedAt(profiles, hosts, newIds, alias, naming);
  }

  lemma {:induction false} MakesValidFields(stored: Profile, host: HostConfig, ids: map<string, string>, naming: Naming)
    requires host.alias in ids && ValidHost(host, naming) && forall alias :: alias in ids ==> IsReference(ids[alias])
    ensures ValidFields(Overwritten(stored, host, ids, naming)) && Overwritten(stored, host, ids, naming).options == stored.options
  {
    hide Trimmed, JumpAlias;
    assert IsReference(ids[host.alias]);
  }

  lemma {:induction false} KnownOptions(profiles: seq<Profile>, host: HostConfig, ids: map<string, string>)
    requires host.alias in ids
    ensures StoredFor(profiles, host, ids).options in Options(profiles)
  {
    hide FindId;
  }

  lemma {:induction false} ValidHostsAreValid(profiles: seq<Profile>, known: seq<Profile>, hosts: seq<HostConfig>, newIds: seq<string>, naming: Naming)
    requires |newIds| == |hosts| && AllReferences(newIds) && StoredReferences(profiles) && ValidHosts(hosts, naming)
    requires AcceptsFields(known, naming) && Options(profiles) <= Options(known)
    ensures HostsValid(profiles, hosts, newIds, naming)
  {
    hide AssignIds, Aliases, StoredFor, Overwritten, ValidFields, ValidHost, Options, AllReferences, StoredReferences, IsReference;
    AssignsAllAliases(profiles, hosts, newIds, naming);
    var ids := AssignIds(profiles, hosts, newIds, naming);
    forall alias | alias in ids
      ensures IsReference(ids[alias])
    {
      AssignsReferences(profiles, hosts, newIds, alias, naming);
    }
    forall k | 0 <= k < |hosts|
      ensures naming.valid(Overwritten(StoredFor(profiles, hosts[k], ids), hosts[k], ids, naming))
    {
      MakesValidFields(StoredFor(profiles, hosts[k], ids), hosts[k], ids, naming);
      KnownOptions(profiles, hosts[k], ids);
    }
  }

  /** An import leaves only ids that were stored or assigned, and only options that were known. */
  lemma {:induction false} ImportLeaves(profiles: seq<Profile>, hosts: seq<HostConfig>, newIds: seq<string>, naming: Naming)
    requires |newIds| == |hosts| && Importable(profiles, hosts, newIds, naming) && AllReferences(newIds) && StoredReferences(profiles)
    ensures StoredReferences(Import(profiles, hosts, newIds, naming))
    ensures Options(Import(profiles, hosts, newIds, naming)) <= Options(profiles)
  {
    hide AssignIds, Importable, Import, Passed, IsReference, AllReferences, FindId;
    FirstImport(profiles, hosts, newIds, naming);
    var ids, after := AssignIds(profiles, hosts, newIds, naming), Import(profiles, hosts, newIds, naming);
    forall k | 0 <= k < |after|
      ensures IsReference(after[k].id) && after[k].options in Options(profiles)
    {
      ContentAt(after, k);
      var w := LastWriter(profiles, hosts, |hosts|, ids, after[k].id, naming);
      if w < |hosts| {
        OnlyOptionsMatter(StoredFor(profiles, hosts[w], ids), StoredFor(profiles, hosts[w], ids), hosts[w], ids, naming);
        KnownOptions(profiles, hosts[w], ids);
        AssignsReferences(profiles, hosts, newIds, hosts[w].alias, naming);
      } else {
        UntouchedPlace(profiles, after, k);
      }
    }
  }

  /**
   Hosts whose fields pass the validator's checks can be imported twice, from any store with unique
   ids, so the conditions of the lemmas about a second import are met.
   */
  lemma {:induction false} ValidHostsAreImportable(profiles: seq<Profile>, hosts: seq<HostConfig>, newIds: seq<string>, laterIds: seq<string>, naming: Naming)
    requires |newIds| == |laterIds| == |hosts| && AllReferences(newIds) && AllReferences(laterIds) && ValidHosts(hosts, naming)
    requires UniqueIds(profiles) && FreshIds(profiles, newIds) && StoredReferences(profiles) && AcceptsFields(profiles, naming)
    ensures Importable(profiles, hosts, newIds, naming)
    ensures HostsValid(Import(profiles, hosts, newIds, naming), hosts, laterIds, naming)
  {
    hide Import, HostsValid, UniqueIds, FreshIds, AllReferences, StoredReferences, AcceptsFields, ValidHosts, Options;
    ValidHostsAreValid(profiles, profiles, hosts, newIds, naming);
    ImportLeaves(profiles, hosts, newIds, naming);
    ValidHostsAreValid(Import(profiles, hosts, newIds, naming), profiles, hosts, laterIds, naming);
  }

  /** For such hosts, whether a second import changes anything is decided by the stored profiles and the list alone. */
  lemma {:induction false} ReimportOfValidHosts(profiles: seq<Profile>, hosts: seq<HostConfig>, newIds: seq<string>, laterIds: seq<string>, naming: Naming)
    requires |newIds| == |laterIds| == |hosts| && AllReferences(newIds) && AllReferences(laterIds) && ValidHosts(hosts, naming)
    requires UniqueIds(profiles) && FreshIds(profiles, newIds) && StoredReferences(profiles) && AcceptsFields(profiles, naming)
    ensures var after := Import(profiles, hosts, newIds, naming);
      Import(after, hosts, laterIds, naming) == after <==> Settled(profiles, hosts, naming)
  {
    hide Import, Importable, HostsValid, UniqueIds, FreshIds, AllReferences, StoredReferences, AcceptsFields, ValidHosts, Settled;
    ValidHostsAreImportable(profiles, hosts, newIds, laterIds, naming);
    ReimportIsFixedExactly(profiles, hosts, newIds, laterIds, naming);
  }
}
