/**
 Importing the same OpenSSH hosts twice.  For arbitrary lists of hosts the result of an import is
 described by the last host that writes each profile; from this follows exactly when a second
 import changes nothing.
 */
module OpenSshReimport {
  import opened OpenSshImport
  import opened Texts

  // ----- what the second pass leaves under each id -----

  function Content(profiles: seq<Profile>, id: string): Option<Profile> {
    var k := FindId(profiles, id);
    if k < |profiles| then Some(profiles[k]) else None
  }

  /** The profile that a host makes of what was stored when the pass began. */
  function Makes(before: seq<Profile>, host: HostConfig, ids: map<string, string>, naming: Naming): Profile
    requires host.alias in ids
  {
    Overwritten(StoredFor(before, host, ids), host, ids, naming)
  }

  predicate Writes(before: seq<Profile>, host: HostConfig, ids: map<string, string>, id: string, naming: Naming)
    requires host.alias in ids
  {
    ids[host.alias] == id && naming.valid(Makes(before, host, ids, naming))
  }

  /** The last of the first `n` hosts that writes the profile with this id; `n` if none does. */
  function LastWriter(before: seq<Profile>, hosts: seq<HostConfig>, n: nat, ids: map<string, string>, id: string, naming: Naming): (j: nat)
    requires n <= |hosts| && forall k :: 0 <= k < |hosts| ==> hosts[k].alias in ids
    ensures j <= n
    ensures j < n ==> Writes(before, hosts[j], ids, id, naming)
    ensures forall i :: 0 <= i < n && Writes(before, hosts[i], ids, id, naming) ==> i <= j < n
  {
    if n == 0 then 0
    else if Writes(before, hosts[n - 1], ids, id, naming) then n - 1
    else
      var j := LastWriter(before, hosts, n - 1, ids, id, naming);
      if j < n - 1 then j else n
  }

  function Expected(before: seq<Profile>, hosts: seq<HostConfig>, n: nat, ids: map<string, string>, id: string, naming: Naming): Option<Profile>
    requires n <= |hosts| && forall k :: 0 <= k < |hosts| ==> hosts[k].alias in ids
  {
    var j := LastWriter(before, hosts, n, ids, id, naming);
    if j < n then Some(Makes(before, hosts[j], ids, naming)) else Content(before, id)
  }

  /** Profiles keep their places and ids; new ones come behind them. */
  predicate KeepsPlaces(before: seq<Profile>, after: seq<Profile>) {
    |before| <= |after| && forall k :: 0 <= k < |before| ==> after[k].id == before[k].id
  }

  lemma {:induction false} UpsertContent(profiles: seq<Profile>, host: HostConfig, ids: map<string, string>, naming: Naming, id: string)
    requires host.alias in ids && UniqueIds(profiles)
    ensures var after := Upsert(profiles, host, ids, naming);
      && UniqueIds(after) && KeepsPlaces(profiles, after)
      && Content(after, id)
           == if Writes(profiles, host, ids, id, naming) then Some(Makes(profiles, host, ids, naming)) else Content(profiles, id)
  {
    UpsertKeepsIds(profiles, host, ids, naming);
    if id != ids[host.alias] {
      UpsertElsewhere(profiles, host, ids, naming, id);
    } else if naming.valid(Makes(profiles, host, ids, naming)) {
      UpsertHere(profiles, host, ids, naming);
    }
  }

  lemma {:induction false} UpsertKeepsIds(profiles: seq<Profile>, host: HostConfig, ids: map<string, string>, naming: Naming)
    requires host.alias in ids && UniqueIds(profiles)
    ensures var after := Upsert(profiles, host, ids, naming);
      UniqueIds(after) && KeepsPlaces(profiles, after)
  {
    hide FindId;
    assert forall i :: 0 <= i < |profiles| ==> Upsert(profiles, host, ids, naming)[i].id == profiles[i].id;
  }

  lemma {:induction false} UpsertAllSnoc(profiles: seq<Profile>, hosts: seq<HostConfig>, host: HostConfig, ids: map<string, string>, naming: Naming)
    requires host.alias in ids && forall k :: 0 <= k < |hosts| ==> hosts[k].alias in ids
    ensures forall k :: 0 <= k < |hosts + [host]| ==> (hosts + [host])[k].alias in ids
    ensures UpsertAll(profiles, hosts + [host], ids, naming) == Upsert(UpsertAll(profiles, hosts, ids, naming), host, ids, naming)
    decreases |hosts|
  {
    hide Upsert;
    if hosts == [] {
      assert [] + [host] == [host] && [host][1..] == [];
    } else {
      UpsertAllSnoc(Upsert(profiles, hosts[0], ids, naming), hosts[1..], host, ids, naming);
      assert (hosts + [host])[1..] == hosts[1..] + [host] && (hosts + [host])[0] == hosts[0];
    }
  }

  /** The state of the pass after the first `n` hosts. */
  function Passed(before: seq<Profile>, hosts: seq<HostConfig>, n: nat, ids: map<string, string>, naming: Naming): seq<Profile>
    requires n <= |hosts| && forall k :: 0 <= k < |hosts| ==> hosts[k].alias in ids
  {
    if n == 0 then before else Upsert(Passed(before, hosts, n - 1, ids, naming), hosts[n - 1], ids, naming)
  }

  lemma {:induction false} PassedIsUpsertAll(before: seq<Profile>, hosts: seq<HostConfig>, n: nat, ids: map<string, string>, naming: Naming)
    requires n <= |hosts| && forall k :: 0 <= k < |hosts| ==> hosts[k].alias in ids
    ensures Passed(before, hosts, n, ids, naming) == UpsertAll(before, hosts[..n], ids, naming)
  {
    hide Upsert;
    if n > 0 {
      PassedIsUpsertAll(before, hosts, n - 1, ids, naming);
      UpsertAllSnoc(before, hosts[..n - 1], hosts[n - 1], ids, naming);
      assert hosts[..n - 1] + [hosts[n - 1]] == hosts[..n];
    }
  }

  lemma {:induction false} StoredIsContent(profiles: seq<Profile>, host: HostConfig, ids: map<string, string>)
    requires host.alias in ids
    ensures StoredFor(profiles, host, ids) == match Content(profiles, ids[host.alias]) case None => BLANK case Some(profile) => profile
  {
  }

  lemma {:induction false} OnlyOptionsMatter(a: Profile, b: Profile, host: HostConfig, ids: map<string, string>, naming: Naming)
    requires host.alias in ids && a.options == b.options
    ensures Overwritten(a, host, ids, naming) == Overwritten(b, host, ids, naming)
    ensures Overwritten(a, host, ids, naming).options == a.options
    ensures Overwritten(a, host, ids, naming).id == ids[host.alias]
  {
  }

  /** Whatever was written meanwhile, a host makes the same profile at its turn as at the start. */
  lemma {:induction false} SameAtItsTurn(before: seq<Profile>, now: seq<Profile>, hosts: seq<HostConfig>, n: nat, ids: map<string, string>, naming: Naming)
    requires n < |hosts| && forall k :: 0 <= k < |hosts| ==> hosts[k].alias in ids
    requires Content(now, ids[hosts[n].alias]) == Expected(before, hosts, n, ids, ids[hosts[n].alias], naming)
    ensures Makes(now, hosts[n], ids, naming) == Makes(before, hosts[n], ids, naming)
  {
    hide Overwritten, FindId;
    var host := hosts[n];
    StoredIsContent(now, host, ids);
    StoredIsContent(before, host, ids);
    var j := LastWriter(before, hosts, n, ids, ids[host.alias], naming);
    if j < n {
      StoredIsContent(before, hosts[j], ids);
      OnlyOptionsMatter(StoredFor(before, hosts[j], ids), StoredFor(before, hosts[j], ids), hosts[j], ids, naming);
    }
    OnlyOptionsMatter(StoredFor(now, host, ids), StoredFor(before, host, ids), host, ids, naming);
  }

  /** Each id ends up with what its last writer makes, and is untouched if it has none. */
  lemma {:induction false} PassedContent(before: seq<Profile>, hosts: seq<HostConfig>, n: nat, ids: map<string, string>, naming: Naming)
    requires UniqueIds(before) && n <= |hosts| && forall k :: 0 <= k < |hosts| ==> hosts[k].alias in ids
    ensures var now := Passed(before, hosts, n, ids, naming);
      && UniqueIds(now) && KeepsPlaces(before, now)
      && forall id :: Content(now, id) == Expected(before, hosts, n, ids, id, naming)
  {
    hide Overwritten, Upsert, Content, Makes, UniqueIds;
    if n > 0 {
      PassedContent(before, hosts, n - 1, ids, naming);
      var now := Passed(before, hosts, n - 1, ids, naming);
      SameAtItsTurn(before, now, hosts, n - 1, ids, naming);
      forall id
        ensures Content(Passed(before, hosts, n, ids, naming), id) == Expected(before, hosts, n, ids, id, naming)
      {
        UpsertContent(now, hosts[n - 1], ids, naming, id);
      }
      UpsertContent(now, hosts[n - 1], ids, naming, "");
    }
  }

  // ----- the ids of the first pass -----

  /** The last host with exactly this alias. */
  function LastExact(hosts: seq<HostConfig>, alias: string): (k: nat)
    ensures alias in Aliases(hosts) ==> k < |hosts| && hosts[k].alias == alias
  {
    if hosts == [] then 0
    else
      var last := |hosts| - 1;
      AliasesSnoc(hosts);
      if hosts[last].alias == alias then last else LastExact(hosts[..last], alias)
  }

  /** Aliases that differ at most in case. */
  predicate Alike(a: string, b: string, naming: Naming) {
    naming.fold(a) == naming.fold(b)
  }

  /** An imported profile has this name, up to case. */
  predicate IsStored(profiles: seq<Profile>, alias: string, naming: Naming) {
    FindImported(profiles, alias, naming) < |profiles|
  }

  /** The first host whose alias is alike; the number of hosts if there is none. */
  function FirstAlike(hosts: seq<HostConfig>, alias: string, naming: Naming): (k: nat)
    ensures k <= |hosts|
    ensures k < |hosts| ==> Alike(hosts[k].alias, alias, naming)
    ensures forall i :: 0 <= i < |hosts| && Alike(hosts[i].alias, alias, naming) ==> k <= i
  {
    if hosts == [] || Alike(hosts[0].alias, alias, naming) then 0 else 1 + FirstAlike(hosts[1..], alias, naming)
  }

  predicate IsLastAlike(hosts: seq<HostConfig>, j: nat, naming: Naming)
    requires j < |hosts|
  {
    forall i :: j < i < |hosts| ==> !Alike(hosts[i].alias, hosts[j].alias, naming)
  }

  lemma {:induction false} FoldMatters(profiles: seq<Profile>, a: string, b: string, naming: Naming)
    requires Alike(a, b, naming)
    ensures FindImported(profiles, a, naming) == FindImported(profiles, b, naming)
    ensures IsStored(profiles, a, naming) <==> IsStored(profiles, b, naming)
  {
    if profiles != [] {
      FoldMatters(profiles[1..], a, b, naming);
    }
  }

  lemma {:induction false} FirstOfAlikes(hosts: seq<HostConfig>, a: string, b: string, naming: Naming)
    requires Alike(a, b, naming)
    ensures FirstAlike(hosts, a, naming) == FirstAlike(hosts, b, naming)
  {
    if hosts != [] {
      FirstOfAlikes(hosts[1..], a, b, naming);
    }
  }

  lemma {:induction false} LastAlike(hosts: seq<HostConfig>, j: nat, naming: Naming) returns (l: nat)
    requires j < |hosts|
    ensures j <= l < |hosts| && Alike(hosts[l].alias, hosts[j].alias, naming) && IsLastAlike(hosts, l, naming)
    decreases |hosts| - j
  {
    l := j;
    if !IsLastAlike(hosts, j, naming) {
      var i :| j < i < |hosts| && Alike(hosts[i].alias, hosts[j].alias, naming);
      l := LastAlike(hosts, i, naming);
    }
  }

  /** A repeated alias gets the id of its last occurrence. */
  lemma {:induction false} AssignedAt(profiles: seq<Profile>, hosts: seq<HostConfig>, newIds: seq<string>, alias: string, naming: Naming)
    requires |newIds| == |hosts|
    ensures var ids := AssignIds(profiles, hosts, newIds, naming);
      && (alias in ids <==> alias in Aliases(hosts))
      && (alias in ids ==> ids[alias] == IdFor(profiles, alias, newIds[LastExact(hosts, alias)], naming))
  {
    hide IdFor, Aliases;
    if hosts == [] {
      NoAliases();
    } else {
      var last := |hosts| - 1;
      AliasesSnoc(hosts);
      AssignedAt(profiles, hosts[..last], newIds[..last], alias, naming);
    }
  }

  lemma {:induction false} NoAliases()
    ensures Aliases([]) == {}
  {
  }

  lemma {:induction false} HostAliasListed(hosts: seq<HostConfig>, j: nat)
    requires j < |hosts|
    ensures hosts[j].alias in Aliases(hosts)
  {
  }

  /** A first import with unique stored ids, new ids and valid hosts. */
  predicate Importable(profiles: seq<Profile>, hosts: seq<HostConfig>, newIds: seq<string>, naming: Naming)
    requires |newIds| == |hosts|
  {
    UniqueIds(profiles) && FreshIds(profiles, newIds) && HostsValid(profiles, hosts, newIds, naming)
  }

  function StoredIds(profiles: seq<Profile>): set<string> {
    set k | 0 <= k < |profiles| :: profiles[k].id
  }

  /** Two aliases share an id if they are the same, or alike and stored. */
  lemma {:induction false} IdsShared(profiles: seq<Profile>, hosts: seq<HostConfig>, newIds: seq<string>, a: string, b: string, naming: Naming)
    requires |newIds| == |hosts| && UniqueIds(profiles) && FreshIds(profiles, newIds)
    requires a in Aliases(hosts) && b in Aliases(hosts)
    ensures var ids := AssignIds(profiles, hosts, newIds, naming);
      && a in ids && b in ids
      && (ids[a] == ids[b] <==> a == b || (Alike(a, b, naming) && IsStored(profiles, a, naming)))
      && (ids[a] in StoredIds(profiles) <==> IsStored(profiles, a, naming))
  {
    AssignedAt(profiles, hosts, newIds, a, naming);
    AssignedAt(profiles, hosts, newIds, b, naming);
    hide AssignIds, Aliases, FindImported;
    if Alike(a, b, naming) {
      FoldMatters(profiles, a, b, naming);
    }
    assert newIds[LastExact(hosts, a)] == newIds[LastExact(hosts, b)] ==> LastExact(hosts, a) == LastExact(hosts, b);
  }

  // ----- where the second import finds the aliases -----

  /** The first import as the last writers leave it. */
  lemma {:induction false} FirstImport(profiles: seq<Profile>, hosts: seq<HostConfig>, newIds: seq<string>, naming: Naming)
    requires |newIds| == |hosts| && Importable(profiles, hosts, newIds, naming)
    ensures forall k :: 0 <= k < |hosts| ==> hosts[k].alias in AssignIds(profiles, hosts, newIds, naming)
    ensures var ids := AssignIds(profiles, hosts, newIds, naming);
      var after := Import(profiles, hosts, newIds, naming);
      && after == Passed(profiles, hosts, |hosts|, ids, naming)
      && UniqueIds(after) && KeepsPlaces(profiles, after)
      && forall id :: Content(after, id) == Expected(profiles, hosts, |hosts|, ids, id, naming)
  {
    hide AssignIds, UniqueIds, Content, Expected, Passed, UpsertAll, KeepsPlaces, AllValid;
    AssignsAllAliases(profiles, hosts, newIds, naming);
    var ids := AssignIds(profiles, hosts, newIds, naming);
    PassedIsUpsertAll(profiles, hosts, |hosts|, ids, naming);
    assert hosts[..|hosts|] == hosts;
    PassedContent(profiles, hosts, |hosts|, ids, naming);
  }

  lemma {:induction false} HostIsValid(profiles: seq<Profile>, hosts: seq<HostConfig>, newIds: seq<string>, j: nat, naming: Naming)
    requires |newIds| == |hosts| && Importable(profiles, hosts, newIds, naming) && j < |hosts|
    ensures hosts[j].alias in AssignIds(profiles, hosts, newIds, naming)
    ensures naming.valid(Makes(profiles, hosts[j], AssignIds(profiles, hosts, newIds, naming), naming))
  {
    hide AssignIds, Overwritten, StoredFor;
    AssignsAllAliases(profiles, hosts, newIds, naming);
  }

  /** The profile of a host's alias holds what the last host with the same id makes. */
  lemma {:induction false} HostContent(profiles: seq<Profile>, hosts: seq<HostConfig>, newIds: seq<string>, j: nat, naming: Naming) returns (w: nat)
    requires |newIds| == |hosts| && Importable(profiles, hosts, newIds, naming) && j < |hosts|
    ensures forall k :: 0 <= k < |hosts| ==> hosts[k].alias in AssignIds(profiles, hosts, newIds, naming)
    ensures var ids := AssignIds(profiles, hosts, newIds, naming);
      var after := Import(profiles, hosts, newIds, naming);
      && j <= w < |hosts| && ids[hosts[w].alias] == ids[hosts[j].alias]
      && (forall i :: w < i < |hosts| ==> ids[hosts[i].alias] != ids[hosts[j].alias])
      && Content(after, ids[hosts[j].alias]) == Some(Makes(profiles, hosts[w], ids, naming))
  {
    hide AssignIds, UniqueIds, Content, Makes, Passed, KeepsPlaces, Importable, Import;
    FirstImport(profiles, hosts, newIds, naming);
    var ids := AssignIds(profiles, hosts, newIds, naming);
    forall i | 0 <= i < |hosts|
      ensures naming.valid(Makes(profiles, hosts[i], ids, naming))
    {
      HostIsValid(profiles, hosts, newIds, i, naming);
    }
    w := LastWriter(profiles, hosts, |hosts|, ids, ids[hosts[j].alias], naming);
    assert Writes(profiles, hosts[j], ids, ids[hosts[j].alias], naming);
    forall i | w < i < |hosts|
      ensures ids[hosts[i].alias] != ids[hosts[j].alias]
    {
      assert !Writes(profiles, hosts[i], ids, ids[hosts[j].alias], naming);
    }
  }

  /** A profile that carries the alias after the import is the stored one, a later one of its name, or one made for an alike alias. */
  lemma {:induction false} CarriersOf(profiles: seq<Profile>, hosts: seq<HostConfig>, newIds: seq<string>, alias: string, q: nat, naming: Naming)
    returns (h: nat)
    requires |newIds| == |hosts| && Importable(profiles, hosts, newIds, naming)
    requires q < |Import(profiles, hosts, newIds, naming)| && IsImported(Import(profiles, hosts, newIds, naming)[q], alias, naming)
    ensures if IsStored(profiles, alias, naming) then FindImported(profiles, alias, naming) <= q
      else
        var ids := AssignIds(profiles, hosts, newIds, naming);
        && h < |hosts| && Alike(hosts[h].alias, alias, naming) && hosts[h].alias in ids
        && ids[hosts[h].alias] == Import(profiles, hosts, newIds, naming)[q].id
  {
    hide AssignIds, Passed, Importable, Import;
    FirstImport(profiles, hosts, newIds, naming);
    var ids, after := AssignIds(profiles, hosts, newIds, naming), Import(profiles, hosts, newIds, naming);
    var id := after[q].id;
    h := LastWriter(profiles, hosts, |hosts|, ids, id, naming);
    ContentAt(after, q);
    if h == |hosts| {
      UntouchedPlace(profiles, after, q);
      ImportedNotBefore(profiles, q, alias, naming);
    } else {
      MadeFor(profiles, hosts[h], ids, naming);
      if IsStored(profiles, alias, naming) {
        StoredPlace(profiles, hosts, newIds, h, q, naming);
        FoldMatters(profiles, hosts[h].alias, alias, naming);
      }
    }
  }

  lemma {:induction false} MadeFor(profiles: seq<Profile>, host: HostConfig, ids: map<string, string>, naming: Naming)
    requires host.alias in ids
    ensures var made := Makes(profiles, host, ids, naming);
      made.name == host.alias && made.group == GROUP && made.id == ids[host.alias]
  {
  }

  lemma {:induction false} ContentAt(profiles: seq<Profile>, q: nat)
    requires UniqueIds(profiles) && q < |profiles|
    ensures Content(profiles, profiles[q].id) == Some(profiles[q]) && FindId(profiles, profiles[q].id) == q
  {
    assert FindId(profiles, profiles[q].id) <= q;
  }

  lemma {:induction false} UntouchedPlace(before: seq<Profile>, after: seq<Profile>, q: nat)
    requires UniqueIds(after) && KeepsPlaces(before, after) && q < |after|
    requires Content(before, after[q].id) == Some(after[q])
    ensures q < |before| && before[q] == after[q]
  {
    var k := FindId(before, after[q].id);
    assert after[k].id == after[q].id;
  }

  lemma {:induction false} ImportedNotBefore(profiles: seq<Profile>, q: nat, alias: string, naming: Naming)
    requires q < |profiles| && IsImported(profiles[q], alias, naming)
    ensures FindImported(profiles, alias, naming) <= q
  {
  }

  /** A stored alias is written at the place where it was found. */
  lemma {:induction false} StoredPlace(profiles: seq<Profile>, hosts: seq<HostConfig>, newIds: seq<string>, h: nat, q: nat, naming: Naming)
    requires |newIds| == |hosts| && Importable(profiles, hosts, newIds, naming) && h < |hosts| && IsStored(profiles, hosts[h].alias, naming)
    requires q < |Import(profiles, hosts, newIds, naming)|
    requires hosts[h].alias in AssignIds(profiles, hosts, newIds, naming)
    requires AssignIds(profiles, hosts, newIds, naming)[hosts[h].alias] == Import(profiles, hosts, newIds, naming)[q].id
    ensures q == FindImported(profiles, hosts[h].alias, naming)
  {
    hide AssignIds, Passed, Importable, Import, Content, Expected, FindImported, IsImported;
    FirstImport(profiles, hosts, newIds, naming);
    var after := Import(profiles, hosts, newIds, naming);
    AssignedAt(profiles, hosts, newIds, hosts[h].alias, naming);
    FoundMeansReused(profiles, hosts[h].alias, newIds[LastExact(hosts, hosts[h].alias)], naming);
    var k := FindImported(profiles, hosts[h].alias, naming);
    assert after[k].id == profiles[k].id;
  }

  /** The first import appends in the order in which the ids occur first. */
  lemma {:induction false} AppendedInOrder(profiles: seq<Profile>, hosts: seq<HostConfig>, newIds: seq<string>, f: nat, y: string, naming: Naming)
    requires |newIds| == |hosts| && Importable(profiles, hosts, newIds, naming)
    requires f < |hosts| && y !in StoredIds(profiles)
    requires forall k :: 0 <= k < |hosts| ==> hosts[k].alias in AssignIds(profiles, hosts, newIds, naming)
    requires forall i :: 0 <= i <= f ==> AssignIds(profiles, hosts, newIds, naming)[hosts[i].alias] != y
    ensures var after := Import(profiles, hosts, newIds, naming);
      FindId(after, AssignIds(profiles, hosts, newIds, naming)[hosts[f].alias]) < |after| &&
      (FindId(after, y) < |after| ==> FindId(after, AssignIds(profiles, hosts, newIds, naming)[hosts[f].alias]) < FindId(after, y))
  {
    hide AssignIds, Makes, Importable, Import, Passed, Content, FindId, UniqueIds, KeepsPlaces;
    FirstImport(profiles, hosts, newIds, naming);
    var ids, after := AssignIds(profiles, hosts, newIds, naming), Import(profiles, hosts, newIds, naming);
    var x := ids[hosts[f].alias];
    ImportableHasUniqueIds(profiles, hosts, newIds, naming);
    PassedContent(profiles, hosts, f + 1, ids, naming);
    PassedFurther(profiles, hosts, f + 1, |hosts|, ids, naming);
    HostIsValid(profiles, hosts, newIds, f, naming);
    var mid := Passed(profiles, hosts, f + 1, ids, naming);
    assert Writes(profiles, hosts[f], ids, x, naming);
    assert Content(mid, x).Some?;
    assert LastWriter(profiles, hosts, f + 1, ids, y, naming) == f + 1;
    NotStored(profiles, y);
    PlacesApart(mid, after, x, y);
  }

  lemma {:induction false} ImportableHasUniqueIds(profiles: seq<Profile>, hosts: seq<HostConfig>, newIds: seq<string>, naming: Naming)
    requires |newIds| == |hosts| && Importable(profiles, hosts, newIds, naming)
    ensures UniqueIds(profiles) && FreshIds(profiles, newIds)
  {
  }

  lemma {:induction false} NotStored(profiles: seq<Profile>, id: string)
    requires id !in StoredIds(profiles)
    ensures Content(profiles, id).None?
  {
  }

  lemma {:induction false} PassedFurther(before: seq<Profile>, hosts: seq<HostConfig>, m: nat, n: nat, ids: map<string, string>, naming: Naming)
    requires UniqueIds(before) && m <= n <= |hosts| && forall k :: 0 <= k < |hosts| ==> hosts[k].alias in ids
    ensures KeepsPlaces(Passed(before, hosts, m, ids, naming), Passed(before, hosts, n, ids, naming))
    decreases n
  {
    hide Upsert, UniqueIds, Passed;
    if m < n {
      PassedStep(before, hosts, n, ids, naming);
      PassedFurther(before, hosts, m, n - 1, ids, naming);
      PassedIsUnique(before, hosts, n - 1, ids, naming);
      UpsertKeepsIds(Passed(before, hosts, n - 1, ids, naming), hosts[n - 1], ids, naming);
    }
  }

  lemma {:induction false} PassedStep(before: seq<Profile>, hosts: seq<HostConfig>, n: nat, ids: map<string, string>, naming: Naming)
    requires 0 < n <= |hosts| && forall k :: 0 <= k < |hosts| ==> hosts[k].alias in ids
    ensures Passed(before, hosts, n, ids, naming) == Upsert(Passed(before, hosts, n - 1, ids, naming), hosts[n - 1], ids, naming)
  {
  }

  lemma {:induction false} PassedIsUnique(before: seq<Profile>, hosts: seq<HostConfig>, n: nat, ids: map<string, string>, naming: Naming)
    requires UniqueIds(before) && n <= |hosts| && forall k :: 0 <= k < |hosts| ==> hosts[k].alias in ids
    ensures UniqueIds(Passed(before, hosts, n, ids, naming))
  {
    hide UniqueIds, Passed, Content, Expected;
    PassedContent(before, hosts, n, ids, naming);
  }

  lemma {:induction false} PlacesApart(mid: seq<Profile>, after: seq<Profile>, x: string, y: string)
    requires UniqueIds(after) && KeepsPlaces(mid, after) && Content(mid, x).Some? && Content(mid, y).None?
    ensures FindId(after, x) < |after| && (FindId(after, y) < |after| ==> FindId(after, x) < FindId(after, y))
  {
    hide FindId;
    var p := FindId(mid, x);
    assert after[p].id == x;
    forall k | 0 <= k < |mid|
      ensures after[k].id != y
    {
      assert mid[k].id == after[k].id && mid[k].id != y;
    }
  }

  /** The id that the second import finds for an alias: the stored one, or that of the first alike host. */
  function LaterId(profiles: seq<Profile>, hosts: seq<HostConfig>, ids: map<string, string>, alias: string, naming: Naming): string
    requires alias in Aliases(hosts) && forall k :: 0 <= k < |hosts| ==> hosts[k].alias in ids
  {
    if IsStored(profiles, alias, naming) then ids[alias] else ids[hosts[FirstAlike(hosts, alias, naming)].alias]
  }

  lemma {:induction false} StoredFoundAgain(profiles: seq<Profile>, hosts: seq<HostConfig>, newIds: seq<string>, j: nat, naming: Naming)
    requires |newIds| == |hosts| && Importable(profiles, hosts, newIds, naming) && j < |hosts| && IsStored(profiles, hosts[j].alias, naming)
    ensures hosts[j].alias in AssignIds(profiles, hosts, newIds, naming)
    ensures var after := Import(profiles, hosts, newIds, naming);
      var k := FindImported(after, hosts[j].alias, naming);
      k < |after| && after[k].id == AssignIds(profiles, hosts, newIds, naming)[hosts[j].alias]
  {
    hide AssignIds, Makes, Importable, Import, Passed, Aliases, FindId;
    var ids, after := AssignIds(profiles, hosts, newIds, naming), Import(profiles, hosts, newIds, naming);
    var alias := hosts[j].alias;
    var w := HostContent(profiles, hosts, newIds, j, naming);
    MadeFor(profiles, hosts[w], ids, naming);
    ImportableHasUniqueIds(profiles, hosts, newIds, naming);
    HostAliasListed(hosts, j);
    HostAliasListed(hosts, w);
    IdsShared(profiles, hosts, newIds, alias, hosts[w].alias, naming);
    FirstImport(profiles, hosts, newIds, naming);
    var at := FindId(after, ids[alias]);
    StoredPlace(profiles, hosts, newIds, j, at, naming);
    assert IsImported(after[at], alias, naming);
    var k := FindImported(after, alias, naming);
    var _ := CarriersOf(profiles, hosts, newIds, alias, k, naming);
  }

  lemma {:induction false} NewFoundAgain(profiles: seq<Profile>, hosts: seq<HostConfig>, newIds: seq<string>, j: nat, naming: Naming)
    requires |newIds| == |hosts| && Importable(profiles, hosts, newIds, naming) && j < |hosts| && !IsStored(profiles, hosts[j].alias, naming)
    ensures forall k :: 0 <= k < |hosts| ==> hosts[k].alias in AssignIds(profiles, hosts, newIds, naming)
    ensures var after := Import(profiles, hosts, newIds, naming);
      var k := FindImported(after, hosts[j].alias, naming);
      var f := FirstAlike(hosts, hosts[j].alias, naming);
      k < |after| && after[k].id == AssignIds(profiles, hosts, newIds, naming)[hosts[f].alias]
  {
    hide AssignIds, Makes, Importable, Import, Passed, Aliases, FindId, FindImported, FirstAlike, StoredIds, UniqueIds, FreshIds;
    var ids, after := AssignIds(profiles, hosts, newIds, naming), Import(profiles, hosts, newIds, naming);
    var alias := hosts[j].alias;
    var f := FirstAlike(hosts, alias, naming);
    FoldMatters(profiles, hosts[f].alias, alias, naming);
    var w := HostContent(profiles, hosts, newIds, f, naming);
    MadeFor(profiles, hosts[w], ids, naming);
    ImportableHasUniqueIds(profiles, hosts, newIds, naming);
    HostAliasListed(hosts, f);
    HostAliasListed(hosts, w);
    IdsShared(profiles, hosts, newIds, hosts[f].alias, hosts[w].alias, naming);
    FirstImport(profiles, hosts, newIds, naming);
    var at := FindId(after, ids[hosts[f].alias]);
    assert IsImported(after[at], alias, naming);
    var k := FindImported(after, alias, naming);
    var h := CarriersOf(profiles, hosts, newIds, alias, k, naming);
    ContentAt(after, k);
    if hosts[h].alias != hosts[f].alias {
      NewIdsDiffer(profiles, hosts, newIds, f, h, naming);
      AppendedInOrder(profiles, hosts, newIds, f, ids[hosts[h].alias], naming);
    }
  }

  /** No host up to the first alike one has the id of another alike alias. */
  lemma {:induction false} NewIdsDiffer(profiles: seq<Profile>, hosts: seq<HostConfig>, newIds: seq<string>, f: nat, h: nat, naming: Naming)
    requires |newIds| == |hosts| && UniqueIds(profiles) && FreshIds(profiles, newIds) && f < |hosts| && h < |hosts|
    requires f == FirstAlike(hosts, hosts[h].alias, naming) && hosts[f].alias != hosts[h].alias && !IsStored(profiles, hosts[h].alias, naming)
    requires forall k :: 0 <= k < |hosts| ==> hosts[k].alias in AssignIds(profiles, hosts, newIds, naming)
    ensures AssignIds(profiles, hosts, newIds, naming)[hosts[h].alias] !in StoredIds(profiles)
    ensures forall i :: 0 <= i <= f ==>
      AssignIds(profiles, hosts, newIds, naming)[hosts[i].alias] != AssignIds(profiles, hosts, newIds, naming)[hosts[h].alias]
  {
    hide AssignIds, Aliases, FindImported, UniqueIds, FreshIds, StoredIds;
    HostAliasListed(hosts, h);
    IdsShared(profiles, hosts, newIds, hosts[h].alias, hosts[h].alias, naming);
    forall i | 0 <= i <= f
      ensures AssignIds(profiles, hosts, newIds, naming)[hosts[i].alias] != AssignIds(profiles, hosts, newIds, naming)[hosts[h].alias]
    {
      HostAliasListed(hosts, i);
      IdsShared(profiles, hosts, newIds, hosts[h].alias, hosts[i].alias, naming);
    }
  }

  // ----- jumps -----

  function Jumps(host: HostConfig, ids: map<string, string>): seq<string>
    requires host.alias in ids
  {
    var jump := JumpAlias(host.proxyJump);
    if jump in ids && ids[jump] != ids[host.alias] then [ids[jump]] else []
  }

  lemma {:induction false} MadeJumps(profiles: seq<Profile>, host: HostConfig, ids: map<string, string>, naming: Naming)
    requires host.alias in ids
    ensures var made := Makes(profiles, host, ids, naming);
      made.name == host.alias && made.host == host.hostName && made.jumpProfileIds == Jumps(host, ids)
  {
  }

  /** After any import of valid hosts every alias has its profile, and its jumps lead to other profiles that are stored. */
  lemma {:induction false} JumpsLeadSomewhere(profiles: seq<Profile>, hosts: seq<HostConfig>, newIds: seq<string>, j: nat, naming: Naming)
    requires |newIds| == |hosts| && Importable(profiles, hosts, newIds, naming) && j < |hosts|
    ensures hosts[j].alias in AssignIds(profiles, hosts, newIds, naming)
    ensures var after := Import(profiles, hosts, newIds, naming);
      var k := FindId(after, AssignIds(profiles, hosts, newIds, naming)[hosts[j].alias]);
      && k < |after|
      && forall id :: id in after[k].jumpProfileIds ==> id != after[k].id && FindId(after, id) < |after|
  {
    hide AssignIds, Importable, Import, Makes, FindId, Aliases, JumpAlias;
    var ids, after := AssignIds(profiles, hosts, newIds, naming), Import(profiles, hosts, newIds, naming);
    var w := HostContent(profiles, hosts, newIds, j, naming);
    MadeFor(profiles, hosts[w], ids, naming);
    MadeJumps(profiles, hosts[w], ids, naming);
    var jump := JumpAlias(hosts[w].proxyJump);
    AssignedAt(profiles, hosts, newIds, jump, naming);
    if jump in Aliases(hosts) {
      var i := IndexOfAlias(hosts, jump);
      var _ := HostContent(profiles, hosts, newIds, i, naming);
    }
  }

  /** A jump through another imported host, however user and port are written, becomes a jump through its profile. */
  lemma {:induction false} JumpLeadsToNamedHost(profiles: seq<Profile>, hosts: seq<HostConfig>, newIds: seq<string>, j: nat, i: nat, naming: Naming)
    requires |newIds| == |hosts| && Importable(profiles, hosts, newIds, naming) && DistinctAliases(hosts, naming)
    requires i < |hosts| && j < |hosts| && i != j && JumpAlias(hosts[j].proxyJump) == hosts[i].alias
    ensures forall k :: 0 <= k < |hosts| ==> hosts[k].alias in AssignIds(profiles, hosts, newIds, naming)
    ensures var ids := AssignIds(profiles, hosts, newIds, naming);
      var after := Import(profiles, hosts, newIds, naming);
      var m, k := FindId(after, ids[hosts[i].alias]), FindId(after, ids[hosts[j].alias]);
      && m < |after| && k < |after|
      && after[m].name == hosts[i].alias && after[m].host == hosts[i].hostName
      && after[k].name == hosts[j].alias && after[k].host == hosts[j].hostName && after[k].jumpProfileIds == [after[m].id]
  {
    hide AssignIds, Importable, Import, Makes, FindId, Aliases, JumpAlias, UniqueIds, FreshIds, DistinctAliases;
    var ids := AssignIds(profiles, hosts, newIds, naming);
    ImportableHasUniqueIds(profiles, hosts, newIds, naming);
    var v := OwnContent(profiles, hosts, newIds, i, naming);
    var w := OwnContent(profiles, hosts, newIds, j, naming);
    MadeFor(profiles, hosts[i], ids, naming);
    MadeJumps(profiles, hosts[i], ids, naming);
    MadeJumps(profiles, hosts[j], ids, naming);
    HostAliasListed(hosts, i);
    HostAliasListed(hosts, j);
    NotAlike(hosts, i, j, naming);
    IdsShared(profiles, hosts, newIds, hosts[i].alias, hosts[j].alias, naming);
  }

  /** With aliases that differ up to case each host has a profile of its own. */
  lemma {:induction false} OwnContent(profiles: seq<Profile>, hosts: seq<HostConfig>, newIds: seq<string>, j: nat, naming: Naming) returns (w: nat)
    requires |newIds| == |hosts| && Importable(profiles, hosts, newIds, naming) && DistinctAliases(hosts, naming) && j < |hosts|
    ensures forall k :: 0 <= k < |hosts| ==> hosts[k].alias in AssignIds(profiles, hosts, newIds, naming)
    ensures var ids := AssignIds(profiles, hosts, newIds, naming);
      w == j && Content(Import(profiles, hosts, newIds, naming), ids[hosts[j].alias]) == Some(Makes(profiles, hosts[j], ids, naming))
  {
    hide AssignIds, Importable, Import, Makes, Content, Aliases, UniqueIds, FreshIds, DistinctAliases;
    ImportableHasUniqueIds(profiles, hosts, newIds, naming);
    w := HostContent(profiles, hosts, newIds, j, naming);
    HostAliasListed(hosts, j);
    HostAliasListed(hosts, w);
    IdsShared(profiles, hosts, newIds, hosts[j].alias, hosts[w].alias, naming);
    if w != j {
      NotAlike(hosts, j, w, naming);
    }
  }

  lemma {:induction false} NotAlike(hosts: seq<HostConfig>, i: nat, j: nat, naming: Naming)
    requires DistinctAliases(hosts, naming) && i < |hosts| && j < |hosts| && i != j
    ensures !Alike(hosts[i].alias, hosts[j].alias, naming) && hosts[i].alias != hosts[j].alias
  {
    assert i < j || j < i;
  }

  // ----- exactly when a second import changes nothing -----

  /** A jump through this alias is translated in the same way by both imports. */
  predicate JumpSettled(profiles: seq<Profile>, hosts: seq<HostConfig>, jump: string, naming: Naming) {
    jump !in Aliases(hosts) || IsStored(profiles, jump, naming)
      || (FirstAlike(hosts, jump, naming) < |hosts| && hosts[FirstAlike(hosts, jump, naming)].alias == jump)
  }

  /**
   What a caller can check before the import: for every class of aliases equal up to case that is
   not stored yet, the first and the last of its hosts have the same alias; and what the last host
   of a class jumps through is no host of the list, or stored, or the first of its class.
   */
  predicate Settled(profiles: seq<Profile>, hosts: seq<HostConfig>, naming: Naming) {
    forall j :: 0 <= j < |hosts| && IsLastAlike(hosts, j, naming) ==> SettledAt(profiles, hosts, j, naming)
  }

  predicate SettledAt(profiles: seq<Profile>, hosts: seq<HostConfig>, j: nat, naming: Naming)
    requires j < |hosts|
  {
    && (IsStored(profiles, hosts[j].alias, naming) || hosts[FirstAlike(hosts, hosts[j].alias, naming)].alias == hosts[j].alias)
    && JumpSettled(profiles, hosts, JumpAlias(hosts[j].proxyJump), naming)
  }

  /** The ids of the second import. */
  lemma {:induction false} LaterIds(profiles: seq<Profile>, hosts: seq<HostConfig>, newIds: seq<string>, laterIds: seq<string>, alias: string, naming: Naming)
    requires |newIds| == |laterIds| == |hosts| && Importable(profiles, hosts, newIds, naming)
    ensures forall k :: 0 <= k < |hosts| ==> hosts[k].alias in AssignIds(profiles, hosts, newIds, naming)
    ensures var ids := AssignIds(profiles, hosts, newIds, naming);
      var again := AssignIds(Import(profiles, hosts, newIds, naming), hosts, laterIds, naming);
      && (alias in ids <==> alias in Aliases(hosts)) && (alias in again <==> alias in Aliases(hosts))
      && (alias in Aliases(hosts) ==> again[alias] == LaterId(profiles, hosts, ids, alias, naming))
  {
    hide AssignIds, Importable, Import, FirstAlike, FindImported;
    var after := Import(profiles, hosts, newIds, naming);
    AssignsAllAliases(profiles, hosts, newIds, naming);
    AssignedAt(profiles, hosts, newIds, alias, naming);
    AssignedAt(after, hosts, laterIds, alias, naming);
    if alias in Aliases(hosts) {
      var j :| 0 <= j < |hosts| && hosts[j].alias == alias;
      if IsStored(profiles, alias, naming) {
        StoredFoundAgain(profiles, hosts, newIds, j, naming);
      } else {
        NewFoundAgain(profiles, hosts, newIds, j, naming);
      }
    }
  }

  /** The second import gives two hosts the same id exactly if their aliases are alike. */
  lemma {:induction false} LaterIdsShared(profiles: seq<Profile>, hosts: seq<HostConfig>, newIds: seq<string>, i: nat, j: nat, naming: Naming)
    requires |newIds| == |hosts| && UniqueIds(profiles) && FreshIds(profiles, newIds) && i < |hosts| && j < |hosts|
    requires forall k :: 0 <= k < |hosts| ==> hosts[k].alias in AssignIds(profiles, hosts, newIds, naming)
    ensures hosts[i].alias in Aliases(hosts) && hosts[j].alias in Aliases(hosts)
    ensures var ids := AssignIds(profiles, hosts, newIds, naming);
      LaterId(profiles, hosts, ids, hosts[i].alias, naming) == LaterId(profiles, hosts, ids, hosts[j].alias, naming)
      <==> Alike(hosts[i].alias, hosts[j].alias, naming)
  {
    hide AssignIds, Aliases, FirstAlike, FindImported, UniqueIds, FreshIds;
    var a, b := hosts[i].alias, hosts[j].alias;
    var f, g := FirstAlike(hosts, a, naming), FirstAlike(hosts, b, naming);
    var p, q := if IsStored(profiles, a, naming) then i else f, if IsStored(profiles, b, naming) then j else g;
    HostAliasListed(hosts, i);
    HostAliasListed(hosts, j);
    HostAliasListed(hosts, p);
    HostAliasListed(hosts, q);
    FoldMatters(profiles, hosts[f].alias, a, naming);
    FoldMatters(profiles, hosts[g].alias, b, naming);
    IdsShared(profiles, hosts, newIds, hosts[p].alias, hosts[q].alias, naming);
    if Alike(a, b, naming) {
      FoldMatters(profiles, a, b, naming);
      FirstOfAlikes(hosts, a, b, naming);
    }
  }

  /** What a host makes in two imports differs only in its id and its jumps. */
  lemma {:induction false} MadeAlike(stored: Profile, later: Profile, host: HostConfig, ids: map<string, string>, again: map<string, string>, naming: Naming)
    requires host.alias in ids && host.alias in again && stored.options == later.options
    ensures Overwritten(stored, host, ids, naming) == Overwritten(later, host, again, naming)
      <==> ids[host.alias] == again[host.alias] && Jumps(host, ids) == Jumps(host, again)
  {
    hide JumpAlias, Trimmed;
  }

  /** A host that keeps its id keeps its jumps exactly if what it jumps through is settled. */
  lemma {:induction false} JumpsKept(profiles: seq<Profile>, hosts: seq<HostConfig>, newIds: seq<string>, laterIds: seq<string>, j: nat, naming: Naming)
    requires |newIds| == |laterIds| == |hosts| && Importable(profiles, hosts, newIds, naming) && j < |hosts|
    requires hosts[j].alias in AssignIds(profiles, hosts, newIds, naming)
    requires hosts[j].alias in AssignIds(Import(profiles, hosts, newIds, naming), hosts, laterIds, naming)
    requires AssignIds(profiles, hosts, newIds, naming)[hosts[j].alias]
          == AssignIds(Import(profiles, hosts, newIds, naming), hosts, laterIds, naming)[hosts[j].alias]
    ensures Jumps(hosts[j], AssignIds(profiles, hosts, newIds, naming))
         == Jumps(hosts[j], AssignIds(Import(profiles, hosts, newIds, naming), hosts, laterIds, naming))
      <==> JumpSettled(profiles, hosts, JumpAlias(hosts[j].proxyJump), naming)
  {
    hide AssignIds, Importable, Import, FirstAlike, FindImported, Aliases, JumpAlias, UniqueIds, FreshIds;
    var jump := JumpAlias(hosts[j].proxyJump);
    LaterIds(profiles, hosts, newIds, laterIds, jump, naming);
    LaterIds(profiles, hosts, newIds, laterIds, hosts[j].alias, naming);
    ImportableHasUniqueIds(profiles, hosts, newIds, naming);
    if jump in Aliases(hosts) && !IsStored(profiles, jump, naming) {
      FirstIsListed(hosts, jump, naming);
      var f := FirstAlike(hosts, jump, naming);
      HostAliasListed(hosts, j);
      HostAliasListed(hosts, f);
      IdsShared(profiles, hosts, newIds, jump, hosts[f].alias, naming);
      IdsShared(profiles, hosts, newIds, jump, hosts[j].alias, naming);
    }
  }

  lemma {:induction false} FirstIsListed(hosts: seq<HostConfig>, alias: string, naming: Naming)
    requires alias in Aliases(hosts)
    ensures FirstAlike(hosts, alias, naming) < |hosts|
  {
    var k :| 0 <= k < |hosts| && hosts[k].alias == alias;
    assert Alike(hosts[k].alias, alias, naming);
  }

  lemma {:induction false} IdKeptExactly(profiles: seq<Profile>, hosts: seq<HostConfig>, newIds: seq<string>, laterIds: seq<string>, j: nat, naming: Naming)
    requires |newIds| == |laterIds| == |hosts| && Importable(profiles, hosts, newIds, naming) && j < |hosts|
    ensures hosts[j].alias in AssignIds(profiles, hosts, newIds, naming)
    ensures hosts[j].alias in AssignIds(Import(profiles, hosts, newIds, naming), hosts, laterIds, naming)
    ensures AssignIds(profiles, hosts, newIds, naming)[hosts[j].alias]
         == AssignIds(Import(profiles, hosts, newIds, naming), hosts, laterIds, naming)[hosts[j].alias]
      <==> IsStored(profiles, hosts[j].alias, naming) || hosts[FirstAlike(hosts, hosts[j].alias, naming)].alias == hosts[j].alias
  {
    hide AssignIds, Importable, Import, FirstAlike, FindImported, Aliases, UniqueIds, FreshIds;
    var alias := hosts[j].alias;
    var f := FirstAlike(hosts, alias, naming);
    ImportableHasUniqueIds(profiles, hosts, newIds, naming);
    LaterIds(profiles, hosts, newIds, laterIds, alias, naming);
    HostAliasListed(hosts, j);
    HostAliasListed(hosts, f);
    IdsShared(profiles, hosts, newIds, alias, hosts[f].alias, naming);
  }

  /** The last host of its class is what the first import leaves; the second makes the same of it exactly if its jump is settled. */
  lemma {:induction false} LastHostKept(profiles: seq<Profile>, hosts: seq<HostConfig>, newIds: seq<string>, laterIds: seq<string>, j: nat, naming: Naming)
    requires |newIds| == |laterIds| == |hosts| && Importable(profiles, hosts, newIds, naming) && j < |hosts| && IsLastAlike(hosts, j, naming)
    requires hosts[j].alias in AssignIds(profiles, hosts, newIds, naming)
    requires hosts[j].alias in AssignIds(Import(profiles, hosts, newIds, naming), hosts, laterIds, naming)
    requires AssignIds(profiles, hosts, newIds, naming)[hosts[j].alias]
          == AssignIds(Import(profiles, hosts, newIds, naming), hosts, laterIds, naming)[hosts[j].alias]
    ensures var ids := AssignIds(profiles, hosts, newIds, naming);
      var after := Import(profiles, hosts, newIds, naming);
      var again := AssignIds(after, hosts, laterIds, naming);
      && Content(after, ids[hosts[j].alias]) == Some(Makes(profiles, hosts[j], ids, naming))
      && (Makes(after, hosts[j], again, naming) == Makes(profiles, hosts[j], ids, naming)
          <==> JumpSettled(profiles, hosts, JumpAlias(hosts[j].proxyJump), naming))
  {
    hide AssignIds, Importable, Import, FindImported, FirstAlike, Aliases, UniqueIds, FreshIds, Overwritten, JumpAlias, FindId, Jumps, StoredFor, Content;
    var ids, after := AssignIds(profiles, hosts, newIds, naming), Import(profiles, hosts, newIds, naming);
    var again := AssignIds(after, hosts, laterIds, naming);
    ImportableHasUniqueIds(profiles, hosts, newIds, naming);
    var w := HostContent(profiles, hosts, newIds, j, naming);
    HostAliasListed(hosts, j);
    HostAliasListed(hosts, w);
    IdsShared(profiles, hosts, newIds, hosts[j].alias, hosts[w].alias, naming);
    assert w == j;
    StoredIsContent(after, hosts[j], again);
    OnlyOptionsMatter(StoredFor(profiles, hosts[j], ids), StoredFor(profiles, hosts[j], ids), hosts[j], ids, naming);
    MadeAlike(StoredFor(profiles, hosts[j], ids), StoredFor(after, hosts[j], again), hosts[j], ids, again, naming);
    JumpsKept(profiles, hosts, newIds, laterIds, j, naming);
  }

  /** The last host of its class is the last to write its id in the second import, if it is valid then. */
  lemma {:induction false} LastWritesLast(profiles: seq<Profile>, hosts: seq<HostConfig>, newIds: seq<string>, laterIds: seq<string>, j: nat, naming: Naming)
    requires |newIds| == |laterIds| == |hosts| && Importable(profiles, hosts, newIds, naming) && j < |hosts| && IsLastAlike(hosts, j, naming)
    requires forall k :: 0 <= k < |hosts| ==> hosts[k].alias in AssignIds(Import(profiles, hosts, newIds, naming), hosts, laterIds, naming)
    requires var after := Import(profiles, hosts, newIds, naming);
      naming.valid(Makes(after, hosts[j], AssignIds(after, hosts, laterIds, naming), naming))
    ensures var after := Import(profiles, hosts, newIds, naming);
      var again := AssignIds(after, hosts, laterIds, naming);
      LastWriter(after, hosts, |hosts|, again, again[hosts[j].alias], naming) == j
  {
    hide AssignIds, Importable, Import, FindImported, FirstAlike, Aliases, UniqueIds, FreshIds, Makes, LaterId, LastWriter;
    var after := Import(profiles, hosts, newIds, naming);
    var again := AssignIds(after, hosts, laterIds, naming);
    ImportableHasUniqueIds(profiles, hosts, newIds, naming);
    var w := LastWriter(after, hosts, |hosts|, again, again[hosts[j].alias], naming);
    assert Writes(after, hosts[j], again, again[hosts[j].alias], naming);
    LaterIds(profiles, hosts, newIds, laterIds, hosts[j].alias, naming);
    LaterIds(profiles, hosts, newIds, laterIds, hosts[w].alias, naming);
    LaterIdsShared(profiles, hosts, newIds, w, j, naming);
  }

  lemma {:induction false} SameContents(before: seq<Profile>, after: seq<Profile>)
    requires UniqueIds(before) && UniqueIds(after) && KeepsPlaces(before, after)
    requires forall id :: Content(after, id) == Content(before, id)
    ensures after == before
  {
    hide Content;
    forall k | 0 <= k < |after|
      ensures k < |before| && before[k] == after[k]
    {
      ContentAt(after, k);
      UntouchedPlace(before, after, k);
    }
    if after != [] {
      ContentAt(after, |after| - 1);
      UntouchedPlace(before, after, |after| - 1);
    }
  }

  /** The second import of a settled list changes nothing. */
  lemma {:induction false} SettledIsFixed(profiles: seq<Profile>, hosts: seq<HostConfig>, newIds: seq<string>, laterIds: seq<string>, naming: Naming)
    requires |newIds| == |laterIds| == |hosts| && Importable(profiles, hosts, newIds, naming) && Settled(profiles, hosts, naming)
    ensures var after := Import(profiles, hosts, newIds, naming);
      Import(after, hosts, laterIds, naming) == after
  {
    hide AssignIds, Importable, UpsertAll, Settled, UniqueIds, Passed, Content, KeepsPlaces, Makes;
    var after := Import(profiles, hosts, newIds, naming);
    var again := AssignIds(after, hosts, laterIds, naming);
    FirstImport(profiles, hosts, newIds, naming);
    AssignsAllAliases(after, hosts, laterIds, naming);
    PassedContent(after, hosts, |hosts|, again, naming);
    PassedIsUpsertAll(after, hosts, |hosts|, again, naming);
    assert hosts[..|hosts|] == hosts;
    forall id
      ensures Expected(after, hosts, |hosts|, again, id, naming) == Content(after, id)
    {
      var w := LastWriter(after, hosts, |hosts|, again, id, naming);
      if w < |hosts| {
        WriterSettled(profiles, hosts, newIds, laterIds, w, naming);
      }
    }
    SameContents(after, Passed(after, hosts, |hosts|, again, naming));
  }

  lemma {:induction false} WriterSettled(profiles: seq<Profile>, hosts: seq<HostConfig>, newIds: seq<string>, laterIds: seq<string>, w: nat, naming: Naming)
    requires |newIds| == |laterIds| == |hosts| && Importable(profiles, hosts, newIds, naming) && Settled(profiles, hosts, naming) && w < |hosts|
    requires forall k :: 0 <= k < |hosts| ==> hosts[k].alias in AssignIds(Import(profiles, hosts, newIds, naming), hosts, laterIds, naming)
    requires var after := Import(profiles, hosts, newIds, naming);
      var again := AssignIds(after, hosts, laterIds, naming);
      LastWriter(after, hosts, |hosts|, again, again[hosts[w].alias], naming) == w
    ensures var after := Import(profiles, hosts, newIds, naming);
      var again := AssignIds(after, hosts, laterIds, naming);
      Content(after, again[hosts[w].alias]) == Some(Makes(after, hosts[w], again, naming))
  {
    hide AssignIds, Importable, Import, FindImported, FirstAlike, Aliases, UniqueIds, FreshIds, Makes, LaterId, LastWriter, JumpSettled, Content, IsStored;
    var after := Import(profiles, hosts, newIds, naming);
    var again := AssignIds(after, hosts, laterIds, naming);
    ImportableHasUniqueIds(profiles, hosts, newIds, naming);
    var l := LastAlike(hosts, w, naming);
    assert SettledAt(profiles, hosts, l, naming);
    IdKeptExactly(profiles, hosts, newIds, laterIds, l, naming);
    LastHostKept(profiles, hosts, newIds, laterIds, l, naming);
    HostIsValid(profiles, hosts, newIds, l, naming);
    LastWritesLast(profiles, hosts, newIds, laterIds, l, naming);
    LaterIds(profiles, hosts, newIds, laterIds, hosts[l].alias, naming);
    LaterIds(profiles, hosts, newIds, laterIds, hosts[w].alias, naming);
    LaterIdsShared(profiles, hosts, newIds, l, w, naming);
  }

  /** A list that a second import of valid hosts leaves alone is settled. */
  lemma {:induction false} FixedIsSettled(profiles: seq<Profile>, hosts: seq<HostConfig>, newIds: seq<string>, laterIds: seq<string>, j: nat, naming: Naming)
    requires |newIds| == |laterIds| == |hosts| && Importable(profiles, hosts, newIds, naming) && j < |hosts| && IsLastAlike(hosts, j, naming)
    requires HostsValid(Import(profiles, hosts, newIds, naming), hosts, laterIds, naming)
    requires var after := Import(profiles, hosts, newIds, naming);
      Import(after, hosts, laterIds, naming) == after
    ensures SettledAt(profiles, hosts, j, naming)
  {
    hide AssignIds, Importable, UpsertAll, UniqueIds, FreshIds, Passed, Content, KeepsPlaces, Makes, Aliases, FirstAlike, FindImported, JumpSettled, LastWriter, LaterId;
    var ids, after := AssignIds(profiles, hosts, newIds, naming), Import(profiles, hosts, newIds, naming);
    var again := AssignIds(after, hosts, laterIds, naming);
    ImportableHasUniqueIds(profiles, hosts, newIds, naming);
    FirstImport(profiles, hosts, newIds, naming);
    AssignsAllAliases(after, hosts, laterIds, naming);
    PassedContent(after, hosts, |hosts|, again, naming);
    PassedIsUpsertAll(after, hosts, |hosts|, again, naming);
    assert hosts[..|hosts|] == hosts;
    LaterHostIsValid(after, hosts, laterIds, j, naming);
    LastWritesLast(profiles, hosts, newIds, laterIds, j, naming);
    assert Content(after, again[hosts[j].alias]) == Some(Makes(after, hosts[j], again, naming));
    LaterNameKept(profiles, hosts, newIds, laterIds, j, naming);
    IdKeptExactly(profiles, hosts, newIds, laterIds, j, naming);
    LastHostKept(profiles, hosts, newIds, laterIds, j, naming);
  }

  lemma {:induction false} LaterHostIsValid(after: seq<Profile>, hosts: seq<HostConfig>, laterIds: seq<string>, j: nat, naming: Naming)
    requires |laterIds| == |hosts| && HostsValid(after, hosts, laterIds, naming) && j < |hosts|
    ensures hosts[j].alias in AssignIds(after, hosts, laterIds, naming)
    ensures naming.valid(Makes(after, hosts[j], AssignIds(after, hosts, laterIds, naming), naming))
  {
    hide AssignIds, Overwritten, StoredFor;
    AssignsAllAliases(after, hosts, laterIds, naming);
  }

  /** If the profile found for an alias has the alias as its name, the alias is stored or the first of its class. */
  lemma {:induction false} LaterNameKept(profiles: seq<Profile>, hosts: seq<HostConfig>, newIds: seq<string>, laterIds: seq<string>, j: nat, naming: Naming)
    requires |newIds| == |laterIds| == |hosts| && Importable(profiles, hosts, newIds, naming) && j < |hosts|
    requires forall k :: 0 <= k < |hosts| ==> hosts[k].alias in AssignIds(Import(profiles, hosts, newIds, naming), hosts, laterIds, naming)
    requires var after := Import(profiles, hosts, newIds, naming);
      var again := AssignIds(after, hosts, laterIds, naming);
      Content(after, again[hosts[j].alias]) == Some(Makes(after, hosts[j], again, naming))
    ensures IsStored(profiles, hosts[j].alias, naming) || hosts[FirstAlike(hosts, hosts[j].alias, naming)].alias == hosts[j].alias
  {
    hide AssignIds, Importable, Import, UniqueIds, FreshIds, Content, Makes, Aliases, FirstAlike, FindImported;
    var after := Import(profiles, hosts, newIds, naming);
    var again := AssignIds(after, hosts, laterIds, naming);
    if !IsStored(profiles, hosts[j].alias, naming) {
      var f := FirstAlike(hosts, hosts[j].alias, naming);
      ImportableHasUniqueIds(profiles, hosts, newIds, naming);
      LaterIds(profiles, hosts, newIds, laterIds, hosts[j].alias, naming);
      FoldMatters(profiles, hosts[f].alias, hosts[j].alias, naming);
      var w := HostContent(profiles, hosts, newIds, f, naming);
      HostAliasListed(hosts, j);
      HostAliasListed(hosts, f);
      HostAliasListed(hosts, w);
      IdsShared(profiles, hosts, newIds, hosts[f].alias, hosts[w].alias, naming);
      MadeFor(profiles, hosts[w], AssignIds(profiles, hosts, newIds, naming), naming);
      MadeFor(after, hosts[j], again, naming);
    }
  }

  /**
   For arbitrary stored profiles and arbitrary lists of valid hosts, repeated aliases and aliases that
   differ only in case included: a second import changes nothing, whatever fresh ids are offered,
   if and only if the list is settled.  The direction from the condition needs no validity in the second import.
   */
  lemma {:induction false} ReimportIsFixedExactly(profiles: seq<Profile>, hosts: seq<HostConfig>, newIds: seq<string>, laterIds: seq<string>, naming: Naming)
    requires |newIds| == |laterIds| == |hosts| && Importable(profiles, hosts, newIds, naming)
    ensures var after := Import(profiles, hosts, newIds, naming);
      && (Settled(profiles, hosts, naming) ==> Import(after, hosts, laterIds, naming) == after)
      && (HostsValid(after, hosts, laterIds, naming) ==> (Import(after, hosts, laterIds, naming) == after <==> Settled(profiles, hosts, naming)))
  {
    hide Import, Importable, HostsValid, SettledAt, IsLastAlike;
    var after := Import(profiles, hosts, newIds, naming);
    if Settled(profiles, hosts, naming) {
      SettledIsFixed(profiles, hosts, newIds, laterIds, naming);
    }
    if HostsValid(after, hosts, laterIds, naming) && Import(after, hosts, laterIds, naming) == after {
      forall j | 0 <= j < |hosts| && IsLastAlike(hosts, j, naming)
        ensures SettledAt(profiles, hosts, j, naming)
      {
        FixedIsSettled(profiles, hosts, newIds, laterIds, j, naming);
      }
    }
  }

  /** With aliases that differ up to case every list is settled. */
  lemma {:induction false} DistinctIsSettled(profiles: seq<Profile>, hosts: seq<HostConfig>, naming: Naming)
    requires DistinctAliases(hosts, naming)
    ensures Settled(profiles, hosts, naming)
  {
    hide Aliases, FindImported;
    forall i | 0 <= i < |hosts|
      ensures FirstAlike(hosts, hosts[i].alias, naming) == i
    {
      assert Alike(hosts[FirstAlike(hosts, hosts[i].alias, naming)].alias, hosts[i].alias, naming);
    }
    forall j | 0 <= j < |hosts|
      ensures SettledAt(profiles, hosts, j, naming)
    {
      var jump := JumpAlias(hosts[j].proxyJump);
      if jump in Aliases(hosts) {
        FirstIsListed(hosts, jump, naming);
        var i := IndexOfAlias(hosts, jump);
      }
    }
  }

  lemma {:induction false} IndexOfAlias(hosts: seq<HostConfig>, alias: string) returns (i: nat)
    requires alias in Aliases(hosts)
    ensures i < |hosts| && hosts[i].alias == alias
  {
    i :| 0 <= i < |hosts| && hosts[i].alias == alias;
  }

  /**
   So importing the same hosts again changes nothing, whatever fresh ids are offered, if the aliases
   differ up to case, the stored ids are unique and every host is valid.
   */
  lemma {:induction false} ReimportIsFixedPoint(profiles: seq<Profile>, hosts: seq<HostConfig>, newIds: seq<string>, laterIds: seq<string>, naming: Naming)
    requires |newIds| == |laterIds| == |hosts| && UniqueIds(profiles) && FreshIds(profiles, newIds) && DistinctAliases(hosts, naming)
    requires HostsValid(profiles, hosts, newIds, naming)
    ensures var after := Import(profiles, hosts, newIds, naming);
      Import(after, hosts, laterIds, naming) == after
  {
    hide Import, HostsValid, UniqueIds, FreshIds, DistinctAliases, Settled;
    DistinctIsSettled(profiles, hosts, naming);
    ReimportIsFixedExactly(profiles, hosts, newIds, laterIds, naming);
  }

  /** Where a class is not settled: the profile of its first host takes the name of its last one. */
  lemma {:induction false} TwinIsRenamed(profiles: seq<Profile>, hosts: seq<HostConfig>, newIds: seq<string>, laterIds: seq<string>, j: nat, naming: Naming)
    requires |newIds| == |laterIds| == |hosts| && Importable(profiles, hosts, newIds, naming) && j < |hosts| && IsLastAlike(hosts, j, naming)
    requires HostsValid(Import(profiles, hosts, newIds, naming), hosts, laterIds, naming) && !IsStored(profiles, hosts[j].alias, naming)
    ensures var after := Import(profiles, hosts, newIds, naming);
      var later := Import(after, hosts, laterIds, naming);
      var k := FindImported(after, hosts[j].alias, naming);
      && k < |after| <= |later|
      && after[k].name == hosts[FirstAlike(hosts, hosts[j].alias, naming)].alias && later[k].name == hosts[j].alias
  {
    hide AssignIds, Importable, UpsertAll, UniqueIds, FreshIds, Passed, Makes, Aliases, FirstAlike, FindImported, LastWriter, Content;
    var ids, after := AssignIds(profiles, hosts, newIds, naming), Import(profiles, hosts, newIds, naming);
    var again := AssignIds(after, hosts, laterIds, naming);
    var f := FirstAlike(hosts, hosts[j].alias, naming);
    var k := FindImported(after, hosts[j].alias, naming);
    ImportableHasUniqueIds(profiles, hosts, newIds, naming);
    FirstImport(profiles, hosts, newIds, naming);
    AssignsAllAliases(after, hosts, laterIds, naming);
    PassedContent(after, hosts, |hosts|, again, naming);
    PassedIsUpsertAll(after, hosts, |hosts|, again, naming);
    assert hosts[..|hosts|] == hosts;
    NewFoundAgain(profiles, hosts, newIds, j, naming);
    ContentAt(after, k);
    LaterHostIsValid(after, hosts, laterIds, j, naming);
    LastWritesLast(profiles, hosts, newIds, laterIds, j, naming);
    LaterIds(profiles, hosts, newIds, laterIds, hosts[j].alias, naming);
    HostAliasListed(hosts, j);
    MadeFor(after, hosts[j], again, naming);
    ContentAt(Passed(after, hosts, |hosts|, again, naming), k);
    FoldMatters(profiles, hosts[f].alias, hosts[j].alias, naming);
    var w := HostContent(profiles, hosts, newIds, f, naming);
    MadeFor(profiles, hosts[w], ids, naming);
    HostAliasListed(hosts, f);
    HostAliasListed(hosts, w);
    IdsShared(profiles, hosts, newIds, hosts[f].alias, hosts[w].alias, naming);
  }
}
