/**
 Terminal themes.  The active theme is derived from the settings, the system's dark mode, the
 catalog and a preview; every session holds a copy of its colours, so the copies are a cache that
 the operations must keep coherent.
 */
module Themes {
  import opened Texts

  datatype Option<+T> = None | Some(value: T)

  type Scheme = string

  datatype Theme = Theme(id: string, dark: bool, builtIn: bool, scheme: Scheme)

  datatype Preference = System | Dark | Light

  datatype Settings = Settings(theme: Preference, terminalTheme: string, lightTheme: string, darkTheme: string)

  const DEFAULT_DARK := "ztermy-dark"
  const DEFAULT_LIGHT := "ztermy-light"

  /** Themes by id: ids in the catalog are unique. */
  type Catalog = map<string, Theme>

  predicate ValidCatalog(catalog: Catalog) {
    && (forall id :: id in catalog ==> catalog[id].id == id && id != "")
    && DEFAULT_DARK in catalog && catalog[DEFAULT_DARK].dark && catalog[DEFAULT_DARK].builtIn
    && DEFAULT_LIGHT in catalog && !catalog[DEFAULT_LIGHT].dark && catalog[DEFAULT_LIGHT].builtIn
  }

  function DefaultId(preferDark: bool): string {
    if preferDark then DEFAULT_DARK else DEFAULT_LIGHT
  }

  function Find(catalog: Catalog, id: string): Option<Theme> {
    if id in catalog then Some(catalog[id]) else None
  }

  /** The named theme, or the built-in one of the preferred darkness. */
  function Resolve(catalog: Catalog, id: string, preferDark: bool): Theme
    requires ValidCatalog(catalog)
  {
    if id in catalog then catalog[id] else catalog[DefaultId(preferDark)]
  }

  // ----- the derived theme -----

  /** Everything the active theme is derived from. */
  datatype Sources = Sources(settings: Settings, systemDark: bool, previewId: string, catalog: Catalog)
  {
    predicate FollowsSystem() {
      settings.theme == System
    }

    predicate PrefersDark() {
      if FollowsSystem() then systemDark else settings.theme != Light
    }

    /** The policy slot in effect when nothing is previewed. */
    function Slot(): string {
      if !FollowsSystem() then settings.terminalTheme else if PrefersDark() then settings.darkTheme else settings.lightTheme
    }

    function Saved(): Theme
      requires ValidCatalog(catalog)
    {
      var theme := Resolve(catalog, Slot(), PrefersDark());
      if FollowsSystem() && theme.dark != PrefersDark() then Resolve(catalog, "", PrefersDark()) else theme
    }

    function Active(): Theme
      requires ValidCatalog(catalog)
    {
      if previewId != "" && previewId in catalog then catalog[previewId] else Saved()
    }

    /**
     Whether importing these themes keeps the colours: a preview hides the change, the slot in
     effect is not among the new ids, the new theme has the wrong darkness for the system, or it
     has the same colours as the default it replaces.
     */
    predicate UnaffectedBy(imported: Catalog)
      requires ValidCatalog(catalog)
    {
      || (previewId != "" && previewId in catalog)
      || Slot() !in imported
      || (FollowsSystem() && imported[Slot()].dark != PrefersDark())
      || imported[Slot()].scheme == catalog[DefaultId(PrefersDark())].scheme
    }

    /** A slot of the policy as the settings page shows it. */
    function PolicySlot(id: string, dark: bool): string
      requires ValidCatalog(catalog)
    {
      var theme := Resolve(catalog, id, dark);
      if theme.dark == dark then theme.id else Resolve(catalog, "", dark).id
    }

    function ShownPolicy(): Policy
      requires ValidCatalog(catalog)
    {
      Policy(FollowsSystem(), Resolve(catalog, settings.terminalTheme, settings.theme != Light).id,
             PolicySlot(settings.lightTheme, false), PolicySlot(settings.darkTheme, true))
    }
  }

  datatype Policy = Policy(followsSystem: bool, fixedId: string, lightId: string, darkId: string)

  /** Without a preview the active theme is the one the policy names, and in system mode it is as dark as the system. */
  lemma {:induction false} ActiveFollowsPolicy(sources: Sources)
    requires ValidCatalog(sources.catalog) && sources.previewId == ""
    ensures var policy := sources.ShownPolicy();
      sources.Active().id == if !policy.followsSystem then policy.fixedId else if sources.systemDark then policy.darkId else policy.lightId
    ensures sources.settings.theme == System ==> sources.Active().dark == sources.systemDark
  {
    assert sources.catalog[DEFAULT_DARK].id == DEFAULT_DARK && sources.catalog[DEFAULT_LIGHT].id == DEFAULT_LIGHT;
    assert sources.Slot() in sources.catalog ==> sources.catalog[sources.Slot()].id == sources.Slot();
  }

  // ----- what the operations do to the sources -----

  /** The public operations; the flags say whether the store or the file system went along. */
  datatype Command =
    | SwitchSystem(dark: bool)
    | Persist(updated: Settings, saved: bool)
    | EndPreview
    | Preview(id: string)
    | Save(id: string, saved: bool)
    | Remove(id: string, fileRemoved: bool)
    | Import(imported: Catalog)
    | Open

  function AfterSave(s: Sources, id: string, saved: bool): Sources {
    if id in s.catalog && saved
    then s.(previewId := "", settings := s.settings.(terminalTheme := id, theme := if s.catalog[id].dark then Dark else Light))
    else s
  }

  function AfterRemove(s: Sources, id: string, fileRemoved: bool): Sources {
    if id in s.catalog && !s.catalog[id].builtIn && fileRemoved
    then s.(catalog := s.catalog - {id}, previewId := if s.previewId == id then "" else s.previewId)
    else s
  }

  function After(s: Sources, command: Command): Sources {
    match command
    case SwitchSystem(dark) => s.(systemDark := dark)
    case Persist(updated, saved) => if saved then s.(settings := updated) else s
    case EndPreview => s.(previewId := "")
    case Preview(id) => if Trimmed(id) in s.catalog then s.(previewId := Trimmed(id)) else s
    case Save(id, saved) => AfterSave(s, Trimmed(id), saved)
    case Remove(id, fileRemoved) => AfterRemove(s, Trimmed(id), fileRemoved)
    case Import(imported) => s.(catalog := s.catalog + imported)
    case Open => s
  }

  function AfterAll(s: Sources, commands: seq<Command>): Sources
    decreases |commands|
  {
    if commands == [] then s else AfterAll(After(s, commands[0]), commands[1..])
  }

  /** Imports bring new ids, and none of them changes the colours of the slot in effect. */
  ghost predicate Harmless(s: Sources, commands: seq<Command>)
    decreases |commands|
  {
    commands == [] || (
      && (commands[0].Import? ==>
            && ValidCatalog(s.catalog) && NewThemes(s.catalog, commands[0].imported)
            && s.UnaffectedBy(commands[0].imported))
      && Harmless(After(s, commands[0]), commands[1..]))
  }

  // ----- what the operations mean for the active theme -----

  /** A preview shows the named theme, whatever the policy; ending it leaves everything as it was without preview. */
  lemma {:induction false} PreviewShows(s: Sources, id: string)
    requires ValidCatalog(s.catalog)
    ensures var after := After(s, Preview(id));
      && (Trimmed(id) in s.catalog ==> after.Active() == s.catalog[Trimmed(id)])
      && (Trimmed(id) !in s.catalog ==> after == s)
      && After(after, EndPreview) == After(s, EndPreview) && After(after, EndPreview).Active() == s.Saved()
  {
    hide Trimmed;
  }

  /**
   Saving a theme shows it for good: whatever was previewed and whatever the system does.  When it is
   removed later, the built-in theme that is as dark takes its place.
   */
  lemma {:induction false} SavedThemeStays(s: Sources, id: string, systemDark: bool)
    requires ValidCatalog(s.catalog) && Trimmed(id) in s.catalog
    ensures var saved := After(s, Save(id, true));
      var theme := s.catalog[Trimmed(id)];
      && saved.Active() == theme && saved.catalog == s.catalog
      && saved.settings.lightTheme == s.settings.lightTheme && saved.settings.darkTheme == s.settings.darkTheme
      && After(saved, SwitchSystem(systemDark)).Active() == theme
      && (!theme.builtIn ==>
           var removed := After(saved, Remove(id, true));
           ValidCatalog(removed.catalog) && removed.Active() == s.catalog[if theme.dark then "ztermy-dark" else "ztermy-light"])
    ensures After(s, Save(id, false)) == s
  {
    hide Trimmed;
  }

  /** Removing takes one imported theme out of the catalog, ends its preview, and no other one. */
  lemma {:induction false} RemovalExactly(s: Sources, id: string, fileRemoved: bool)
    requires ValidCatalog(s.catalog) && (s.previewId != "" ==> s.previewId in s.catalog)
    ensures var gone, after := Trimmed(id), After(s, Remove(id, fileRemoved));
      && ValidCatalog(after.catalog) && after.settings == s.settings && after.systemDark == s.systemDark
      && (if gone in s.catalog && !s.catalog[gone].builtIn && fileRemoved then
            && gone !in after.catalog
            && (forall other :: other != gone ==> Find(after.catalog, other) == Find(s.catalog, other))
            && (s.previewId != gone ==> after.previewId == s.previewId)
            && (s.previewId == gone ==> after.Active() == after.Saved())
            && (s.Active().id != gone ==> after.Active() == s.Active())
          else after == s)
  {
    hide Trimmed;
  }

  /** A switch of the system shows only where the theme follows it and nothing is previewed. */
  lemma {:induction false} SwitchShows(s: Sources, dark: bool)
    requires ValidCatalog(s.catalog)
    ensures var after := After(s, SwitchSystem(dark));
      && after.settings == s.settings && after.catalog == s.catalog && after.previewId == s.previewId
      && (s.FollowsSystem() && s.previewId == "" ==> after.Active().dark == dark)
      && (!s.FollowsSystem() || (s.previewId != "" && s.previewId in s.catalog) ==> after.Active() == s.Active())
      && After(After(after, SwitchSystem(s.systemDark)), Open) == s
  {
  }

  /** Saved settings are the policy shown from then on; what could not be saved changes nothing. */
  lemma {:induction false} PersistShows(s: Sources, updated: Settings)
    requires ValidCatalog(s.catalog)
    ensures After(s, Persist(updated, false)) == s
    ensures var after := After(s, Persist(updated, true));
      && after.previewId == s.previewId && after.catalog == s.catalog && after.systemDark == s.systemDark
      && after.FollowsSystem() == (updated.theme == System)
      && (updated.theme != System && updated.terminalTheme in s.catalog ==> after.ShownPolicy().fixedId == updated.terminalTheme)
      && (updated.lightTheme in s.catalog && !s.catalog[updated.lightTheme].dark ==> after.ShownPolicy().lightId == updated.lightTheme)
      && (updated.darkTheme in s.catalog && s.catalog[updated.darkTheme].dark ==> after.ShownPolicy().darkId == updated.darkTheme)
  {
  }

  /** An import makes its themes available and touches no other. */
  lemma {:induction false} ImportOffers(s: Sources, imported: Catalog, id: string)
    requires ValidCatalog(s.catalog) && NewThemes(s.catalog, imported) && id != ""
    ensures var after := After(s, Import(imported));
      && ValidCatalog(after.catalog)
      && Find(after.catalog, id) == (if id in imported then Some(imported[id]) else Find(s.catalog, id))
      && (id in imported && Trimmed(id) == id ==> After(after, Preview(id)).Active() == imported[id])
      && (id in s.catalog ==> id !in imported)
  {
    hide Trimmed;
  }

  // ----- the controller's theme part -----

  class ThemeController {
    var settings: Settings
    var systemDarkMode: bool
    var previewTerminalThemeId: string
    var terminalThemes: Catalog
    /** The colour scheme each session was given last. */
    var sessionSchemes: seq<Scheme>

    function AsSources(): Sources
      reads this
    {
      Sources(settings, systemDarkMode, previewTerminalThemeId, terminalThemes)
    }

    /** The cache: every session shows the active theme. */
    predicate Coherent()
      reads this
      requires ValidCatalog(terminalThemes)
    {
      forall k :: 0 <= k < |sessionSchemes| ==> sessionSchemes[k] == AsSources().Active().scheme
    }

    /** The catalog is in order and a preview shows a theme of the catalog. */
    predicate Sound()
      reads this
    {
      ValidCatalog(terminalThemes) && (previewTerminalThemeId != "" ==> previewTerminalThemeId in terminalThemes)
    }

    predicate Valid()
      reads this
    {
      Sound() && Coherent()
    }

    constructor (settings: Settings, systemDark: bool, catalog: Catalog)
      requires ValidCatalog(catalog)
      ensures Valid() && AsSources() == Sources(settings, systemDark, "", catalog) && sessionSchemes == []
    {
      this.settings, systemDarkMode, previewTerminalThemeId, terminalThemes := settings, systemDark, "", catalog;
      sessionSchemes := [];
    }

    /** A new session is given the active colours before it is registered. */
    method OpenSession()
      requires Valid()
      modifies this`sessionSchemes
      ensures Valid()
      ensures sessionSchemes == old(sessionSchemes) + [AsSources().Active().scheme]
    {
      sessionSchemes := sessionSchemes + [AsSources().Active().scheme];
    }

    method ApplyTerminalThemeToSessions()
      requires Sound()
      modifies this`sessionSchemes
      ensures Valid() && |sessionSchemes| == |old(sessionSchemes)|
    {
      var active := AsSources().Active();
      for k := 0 to |sessionSchemes|
        invariant |sessionSchemes| == |old(sessionSchemes)|
        invariant AsSources().Active() == active
        invariant forall i :: 0 <= i < k ==> sessionSchemes[i] == active.scheme
      {
        sessionSchemes := sessionSchemes[k := active.scheme];
      }
    }

    method SetSystemDarkMode(dark: bool)
      requires Valid()
      modifies this
      ensures Valid() && AsSources() == After(old(AsSources()), SwitchSystem(dark))
    {
      if systemDarkMode == dark {
        return;
      }
      systemDarkMode := dark;
      if settings.theme == System && previewTerminalThemeId == "" {
        ApplyTerminalThemeToSessions();
      }
    }

    /** Saving settings; without a preview a changed theme policy is applied at once. */
    method PersistApplicationSettings(updated: Settings, saved: bool) returns (ok: bool)
      requires Valid()
      modifies this
      ensures Valid() && ok == saved
      ensures AsSources() == After(old(AsSources()), Persist(updated, saved))
    {
      if !saved {
        return false;
      }
      if settings == updated {
        return true;
      }
      settings := updated;
      if previewTerminalThemeId == "" {
        ApplyTerminalThemeToSessions();
      }
      return true;
    }

    method EndTerminalThemePreview()
      requires Valid()
      modifies this
      ensures Valid() && AsSources() == After(old(AsSources()), EndPreview)
    {
      if previewTerminalThemeId == "" {
        return;
      }
      previewTerminalThemeId := "";
      ApplyTerminalThemeToSessions();
    }

    method PreviewTerminalTheme(id: string)
      requires Valid()
      modifies this
      ensures Valid()
      ensures AsSources() == After(old(AsSources()), Preview(id))
    {
      var trimmed := Trimmed(id);
      if trimmed == previewTerminalThemeId || Find(terminalThemes, trimmed).None? {
        return;
      }
      previewTerminalThemeId := trimmed;
      ApplyTerminalThemeToSessions();
    }

    /** Choosing one theme for good ends the preview and fixes the mode to the theme's darkness. */
    method SaveTerminalTheme(id: string, saved: bool) returns (ok: bool)
      requires Valid()
      modifies this
      ensures Valid()
      ensures ok <==> Find(old(terminalThemes), Trimmed(id)).Some? && saved
      ensures AsSources() == After(old(AsSources()), Save(id, saved))
      ensures ok ==> AsSources().Active() == old(terminalThemes)[Trimmed(id)]
      ensures ok ==> !AsSources().FollowsSystem() && AsSources().PrefersDark() == old(terminalThemes)[Trimmed(id)].dark
    {
      var trimmed := Trimmed(id);
      var theme := Find(terminalThemes, trimmed);
      if theme.None? {
        return false;
      }
      var previewing := previewTerminalThemeId != "";
      var updated := settings.(terminalTheme := trimmed, theme := if theme.value.dark then Dark else Light);
      var persisted := PersistApplicationSettings(updated, saved);
      if !persisted {
        return false;
      }
      if previewing {
        previewTerminalThemeId := "";
        ApplyTerminalThemeToSessions();
      }
      return true;
    }

    /** The whole policy at once; light and dark slots must hold themes of that darkness. */
    method SaveThemePolicy(mode: string, fixedId: string, lightId: string, darkId: string, saved: bool) returns (ok: bool)
      requires Valid()
      modifies this
      ensures Valid()
      ensures ok <==>
        var f, l, d := Find(old(terminalThemes), Trimmed(fixedId)), Find(old(terminalThemes), Trimmed(lightId)), Find(old(terminalThemes), Trimmed(darkId));
        mode in {"system", "fixed"} && f.Some? && l.Some? && d.Some? && !l.value.dark && d.value.dark && saved
      ensures !ok ==> AsSources() == old(AsSources())
      ensures ok ==> AsSources() == old(AsSources()).(previewId := "", settings := settings)
      ensures ok && mode == "fixed" ==> AsSources().PrefersDark() == old(terminalThemes)[Trimmed(fixedId)].dark
      ensures ok ==> AsSources().ShownPolicy() == Policy(mode == "system", Trimmed(fixedId), Trimmed(lightId), Trimmed(darkId))
    {
      hide Trimmed;
      var fixedTheme := Find(terminalThemes, Trimmed(fixedId));
      var lightTheme := Find(terminalThemes, Trimmed(lightId));
      var darkTheme := Find(terminalThemes, Trimmed(darkId));
      if (mode != "system" && mode != "fixed") || fixedTheme.None? || lightTheme.None? || darkTheme.None?
         || lightTheme.value.dark || !darkTheme.value.dark {
        return false;
      }
      var updated := Settings(if mode == "system" then System else if fixedTheme.value.dark then Dark else Light,
                              fixedTheme.value.id, lightTheme.value.id, darkTheme.value.id);
      var persisted := PersistApplicationSettings(updated, saved);
      if !persisted {
        return false;
      }
      EndTerminalThemePreview();
      return true;
    }

    /** Only imported themes can be removed; their ids then resolve to the built-in defaults. */
    method RemoveTerminalTheme(id: string, fileRemoved: bool) returns (ok: bool)
      requires Valid()
      modifies this
      ensures Valid()
      ensures ok <==> Find(old(terminalThemes), Trimmed(id)).Some? && !old(terminalThemes)[Trimmed(id)].builtIn && fileRemoved
      ensures AsSources() == After(old(AsSources()), Remove(id, fileRemoved))
    {
      hide Trimmed;
      var trimmed := Trimmed(id);
      var theme := Find(terminalThemes, trimmed);
      if theme.None? || theme.value.builtIn || !fileRemoved {
        return false;
      }
      terminalThemes := terminalThemes - {trimmed};
      var previewRemoved := previewTerminalThemeId == trimmed;
      if previewRemoved {
        previewTerminalThemeId := "";
      }
      if previewRemoved || settings.terminalTheme == trimmed || settings.lightTheme == trimmed || settings.darkTheme == trimmed {
        ApplyTerminalThemeToSessions();
      }
      return true;
    }

    /** An import adds themes under ids the catalog does not have; it does not touch the sessions. */
    method ImportTerminalThemeFile(imported: Catalog)
      requires Valid() && NewThemes(terminalThemes, imported)
      modifies this`terminalThemes
      ensures Sound() && AsSources() == After(old(AsSources()), Import(imported))
      ensures sessionSchemes == [] || old(AsSources()).UnaffectedBy(imported) <==> Coherent()
    {
      ImportEffect(AsSources(), imported);
      terminalThemes := terminalThemes + imported;
      if sessionSchemes != [] {
        assert sessionSchemes[0] == old(AsSources().Active().scheme);
      }
    }

    /** Any sequence of the operations keeps every session in the active colours, if its imports are harmless. */
    method Perform(commands: seq<Command>)
      requires Valid() && Harmless(AsSources(), commands)
      modifies this
      ensures Valid() && AsSources() == AfterAll(old(AsSources()), commands)
      decreases |commands|
    {
      if commands == [] {
        return;
      }
      ghost var before := AsSources();
      match commands[0] {
        case SwitchSystem(dark) => SetSystemDarkMode(dark);
        case Persist(updated, saved) => var _ := PersistApplicationSettings(updated, saved);
        case EndPreview => EndTerminalThemePreview();
        case Preview(id) => PreviewTerminalTheme(id);
        case Save(id, saved) => var _ := SaveTerminalTheme(id, saved);
        case Remove(id, fileRemoved) => var _ := RemoveTerminalTheme(id, fileRemoved);
        case Import(imported) => ImportTerminalThemeFile(imported);
        case Open => OpenSession();
      }
      assert Valid() && AsSources() == After(before, commands[0]);
      hide After;
      Perform(commands[1..]);
    }
  }

  predicate NewThemes(catalog: Catalog, imported: Catalog) {
    && imported.Keys !! catalog.Keys
    && forall id :: id in imported ==> imported[id].id == id && id != "" && !imported[id].builtIn
  }

  /** An import keeps the active colours exactly if it leaves the slot in effect alone in one of these ways. */
  lemma {:induction false} ImportEffect(sources: Sources, imported: Catalog)
    requires ValidCatalog(sources.catalog) && NewThemes(sources.catalog, imported)
    requires sources.previewId != "" ==> sources.previewId in sources.catalog
    ensures var after := sources.(catalog := sources.catalog + imported);
      && ValidCatalog(after.catalog)
      && (sources.UnaffectedBy(imported) <==> after.Active().scheme == sources.Active().scheme)
  {
  }

  /** So importing a theme under an id that the policy still names, after that theme was removed, leaves sessions behind. */
  lemma {:induction false} ImportCanLeaveSessionsBehind(catalog: Catalog, theme: Theme)
    requires ValidCatalog(catalog) && theme.id !in catalog && theme.id != "" && !theme.builtIn && theme.dark
    requires theme.scheme != catalog[DEFAULT_DARK].scheme
    ensures var before := Sources(Settings(Dark, theme.id, DEFAULT_LIGHT, DEFAULT_DARK), true, "", catalog);
      var after := before.(catalog := catalog + map[theme.id := theme]);
      ValidCatalog(after.catalog) && before.Active().scheme == catalog[DEFAULT_DARK].scheme != after.Active().scheme
  {
    var before := Sources(Settings(Dark, theme.id, DEFAULT_LIGHT, DEFAULT_DARK), true, "", catalog);
    ImportEffect(before, map[theme.id := theme]);
  }
}
