/**
 What the controller's operations on tabs, panes and windows do, from what the user sees before.
 An operation that fails changes nothing; one that succeeds shows what was asked for, and the
 registry of sessions, the pinned tabs, the active tab and the focus follow.
 */
module WorkspaceOutcomes {
  import opened Lists
  import opened WorkspaceState
  import opened PaneTree
  import opened WorkspaceTransfer
  import opened PaneOrder
  import opened LayoutParts
  import opened PaneSwaps
  import opened TransferOrder
  import opened TransferSuccess
  import opened TabOrder
  import opened PaneScreen
  import opened TransferScreen
  import opened WorkspaceWindows

  /** The stored tab with this id. */
  function LayoutIn(view: View, id: string): Option<Layout> {
    var k := FindLayout(view.Layouts(), id);
    if k < |view.Layouts()| then Some(view.Layouts()[k]) else None
  }

  /** The tab may be changed: no shutdown, no question about a host key, and no text being composed in it. */
  predicate Free(view: View, id: string) {
    && !view.shutdownStarted && view.hostKeyTabId == ""
    && forall session :: session in view.sessions && session.workspaceId == id ==> session.paneId !in view.preedit
  }

  lemma {:induction false} FreeMeansTransferable(view: View, id: string)
    ensures Free(view, id) <==> CanTransfer(view, id)
  {
  }

  // ----- following the tabs -----

  /** The session has its pane in no tab. */
  predicate Homeless(layouts: seq<Layout>, session: Session) {
    forall k :: 0 <= k < |layouts| ==> !MentionedIn(layouts[k].nodes, session)
  }

  /** The focus is with the session of the active tab's active pane; nowhere if it has none. */
  ghost predicate FocusFollows(view: View) {
    var pane := ActiveIn(view.Layouts(), view.activeTabId);
    && (forall i :: 0 <= i < |view.sessions| && HasLayout(view.Layouts(), view.activeTabId) && view.sessions[i].paneId == pane ==>
         view.focusedTabId == view.sessions[i].id)
    && (!HasLayout(view.Layouts(), view.activeTabId) || (forall i :: 0 <= i < |view.sessions| ==> view.sessions[i].paneId != pane) ==>
         view.focusedTabId == "")
  }

  /**
   The same sessions, each registered under the tab that has its pane, or where it was if none has;
   of the pinned tabs those that still exist; and the focus in the active tab.
   */
  ghost predicate Follows(before: View, after: View) {
    && Coherent(after) && FocusFollows(after)
    && SamePanes(after.sessions, before.sessions)
    && (forall i :: 0 <= i < |after.sessions| && Homeless(after.Layouts(), before.sessions[i]) ==> after.sessions[i] == before.sessions[i])
    && (forall id :: id in after.pinned <==> id in before.pinned && LayoutIn(after, id).Some?)
    && after.shutdownStarted == before.shutdownStarted && after.hostKeyTabId == before.hostKeyTabId && after.preedit == before.preedit
  }

  lemma {:induction false} FocusFound(layouts: seq<Layout>, sessions: seq<Session>, id: string)
    requires OneSessionPerPane(sessions)
    ensures var pane, focused := ActiveIn(layouts, id), FocusedIn(layouts, sessions, id);
      && (forall i :: 0 <= i < |sessions| && HasLayout(layouts, id) && sessions[i].paneId == pane ==> focused == sessions[i].id)
      && (!HasLayout(layouts, id) || (forall i :: 0 <= i < |sessions| ==> sessions[i].paneId != pane) ==> focused == "")
  {
    hide FindLayout, FindSessionForPane;
    var k := FindSessionForPane(sessions, ActiveIn(layouts, id));
  }

  lemma {:induction false} PublishedFollows(view: View, state: State)
    requires OneSessionPerPane(view.sessions) && Coherent(Published(view, state))
    ensures Follows(view, Published(view, state))
    ensures Published(view, state).workspace == state && Published(view, state).activeTabId == state.activeTerminalWorkspaceId
  {
    hide Coherent, FindLayout, ClaimAll, FocusedIn, Homeless, ActiveIn;
    var layouts, after := state.terminalWorkspaces, Published(view, state);
    ClaimAllSame(view.sessions, layouts);
    FocusFound(layouts, after.sessions, after.activeTabId);
    forall i | 0 <= i < |view.sessions| && Homeless(layouts, view.sessions[i])
      ensures after.sessions[i] == view.sessions[i]
    {
      HomelessStays(view.sessions, layouts, i);
    }
  }

  lemma {:induction false} ClaimAllSame(sessions: seq<Session>, layouts: seq<Layout>)
    requires OneSessionPerPane(sessions)
    ensures SamePanes(ClaimAll(sessions, layouts), sessions) && OneSessionPerPane(ClaimAll(sessions, layouts))
  {
    hide ClaimAll;
    if sessions != [] {
      ClaimAllEffect(sessions, layouts, 0);
    }
  }

  lemma {:induction false} HomelessStays(sessions: seq<Session>, layouts: seq<Layout>, i: nat)
    requires OneSessionPerPane(sessions) && i < |sessions| && Homeless(layouts, sessions[i])
    ensures ClaimAll(sessions, layouts)[i] == sessions[i]
  {
    hide ClaimAll;
    ClaimAllEffect(sessions, layouts, i);
  }

  // ----- one tab changes -----

  /** Tab `id` is `layout` now; all others are as they were, and the list has the same order. */
  ghost predicate OnlyChanged(before: View, after: View, id: string, layout: Layout) {
    && LayoutIn(after, id) == Some(layout)
    && (forall other :: other != id ==> LayoutIn(after, other) == LayoutIn(before, other))
    && TabIds(after.Layouts()) == TabIds(before.Layouts())
  }

  lemma {:induction false} UpdateChangesOne(before: View, after: View, k: nat, layout: Layout)
    requires UniqueLayoutIds(before.Layouts()) && k < |before.Layouts()| && layout.id == before.Layouts()[k].id
    requires after.Layouts() == before.Layouts()[k := layout]
    ensures OnlyChanged(before, after, layout.id, layout)
  {
    hide FindLayout, TabIds;
    TabIdsUpdate(before.Layouts(), k, layout);
    FindUnique(before.Layouts(), k);
    forall id
      ensures FindLayout(after.Layouts(), id) == FindLayout(before.Layouts(), id)
    {
      FindAfterUpdate(before.Layouts(), k, layout, id);
    }
    forall other | other != layout.id
      ensures LayoutIn(after, other) == LayoutIn(before, other)
    {
      assert FindLayout(after.Layouts(), other) == FindLayout(before.Layouts(), other);
    }
  }

  /** The tab in another window, with another return address. */
  function InWindowOf(layout: Layout, windowId: string, returnId: string): Layout {
    layout.(windowId := windowId, returnWorkspaceId := returnId)
  }

  /** The only tab of a window that is not the main one. */
  predicate Lone(view: View, id: string) {
    var tab := LayoutIn(view, id);
    tab.Some? && tab.value.windowId != "main" && TabIds(InWindow(view.Layouts(), tab.value.windowId)) == [id]
  }

  lemma {:induction false} LoneMeansOne(view: View, k: nat)
    requires k < |view.Layouts()| && FindLayout(view.Layouts(), view.Layouts()[k].id) == k
    ensures Lone(view, view.Layouts()[k].id)
      <==> view.Layouts()[k].windowId != "main" && |InWindow(view.Layouts(), view.Layouts()[k].windowId)| == 1
  {
    var w := view.Layouts()[k].windowId;
    InWindowAround(view.Layouts(), k, w);
    hide InWindow, FindLayout;
    var tabs := InWindow(view.Layouts(), w);
    if |tabs| == 1 {
      assert tabs == [view.Layouts()[k]];
      assert TabIds(tabs)[0] == view.Layouts()[k].id;
    }
  }

  /** Detaching gives the tab a window of its own, unless it has one, and forgets where it came from. */
  lemma {:induction false} DetachOutcome(view: View, id: string, newWindowId: string, saved: bool)
    requires Coherent(view)
    ensures var (after, ok) := DetachTab(view, id, newWindowId, saved);
      && (ok <==> Free(view, id) && LayoutIn(view, id).Some? && (Lone(view, id) || saved))
      && (!ok || Lone(view, id) ==> after == view)
      && (ok && !Lone(view, id) ==>
           && Follows(view, after) && after.activeTabId == view.activeTabId
           && OnlyChanged(view, after, id, InWindowOf(LayoutIn(view, id).value, newWindowId, "")))
  {
    hide Coherent, Published, FindLayout, CanTransfer, InWindow, Lone, Follows, OnlyChanged, Free;
    CoherentParts(view);
    FreeMeansTransferable(view, id);
    var layouts := view.Layouts();
    var k := FindLayout(layouts, id);
    if k < |layouts| {
      LoneMeansOne(view, k);
      var detached := InWindowOf(layouts[k], newWindowId, "");
      var state := view.workspace.(terminalWorkspaces := layouts[k := detached]);
      CoherentActive(view);
      UpdatePublishedIsCoherent(view, state, k, detached);
      PublishedFollows(view, state);
      UpdateChangesOne(view, Published(view, state), k, detached);
    }
  }

  lemma {:induction false} CoherentParts(view: View)
    requires Coherent(view)
    ensures UniqueLayoutIds(view.Layouts()) && PanesApart(view.Layouts()) && OneSessionPerPane(view.sessions)
    ensures view.activeTabId == view.workspace.activeTerminalWorkspaceId
  {
    hide PanesApart, UniqueLayoutIds;
  }

  lemma {:induction false} CoherentActive(view: View)
    requires Coherent(view) && view.Layouts() != []
    ensures HasLayout(view.Layouts(), view.workspace.activeTerminalWorkspaceId)
  {
    hide PanesApart, UniqueLayoutIds, Owned;
  }

  // ----- inserting -----

  /** Inserting puts the tab at the index of the window's other tabs, or behind them, and makes it the active one. */
  lemma {:induction false} InsertOutcome(view: View, id: string, targetIndex: int, windowId: string, saved: bool)
    requires Coherent(view)
    ensures var (after, ok) := InsertTab(view, id, targetIndex, windowId, saved);
      && (ok <==> Free(view, id) && targetIndex >= 0 && (windowId == "main" || InWindow(view.Layouts(), windowId) != [])
                  && LayoutIn(view, id).Some? && saved)
      && (!ok ==> after == view)
      && (ok ==>
           var tab := LayoutIn(view, id).value;
           var moved := InWindowOf(tab, windowId, if tab.windowId == windowId then tab.returnWorkspaceId else "");
           && Follows(view, after) && after.activeTabId == id
           && LayoutIn(after, id) == Some(moved) && (forall other :: other != id ==> LayoutIn(after, other) == LayoutIn(view, other))
           && forall w :: InWindow(after.Layouts(), w) == WithTab(EraseLayout(InWindow(view.Layouts(), w), id), w, moved, targetIndex))
  {
    hide Coherent, Published, FindLayout, CanTransfer, InWindow, Follows, Free, EraseLayout, Reinserted, PanesApart, UniqueLayoutIds;
    CoherentParts(view);
    FreeMeansTransferable(view, id);
    var layouts := view.Layouts();
    var k := FindLayout(layouts, id);
    if k < |layouts| && targetIndex >= 0 {
      var moved := Relocated(layouts[k], windowId);
      var state := view.workspace.(terminalWorkspaces := Reinserted(layouts, k, moved, targetIndex), activeTerminalWorkspaceId := id);
      ReinsertKeepsApart(layouts, k, moved, targetIndex);
      MovedIsThere(layouts, k, moved, targetIndex);
      PublishedIsCoherent(view, state);
      PublishedFollows(view, state);
      forall w
        ensures InWindow(state.terminalWorkspaces, w) == WithTab(EraseLayout(InWindow(layouts, w), id), w, moved, targetIndex)
      {
        InsertedInWindow(layouts, k, moved, targetIndex, w);
      }
      forall other
        ensures LayoutIn(Published(view, state), other) == if other == id then Some(moved) else LayoutIn(view, other)
      {
        FoundAfterInsert(layouts, k, moved, targetIndex, other);
      }
    }
  }

  function WithTab(tabs: seq<Layout>, w: string, tab: Layout, index: nat): seq<Layout> {
    if w == tab.windowId then InsertAt(tabs, if index < |tabs| then index else |tabs|, tab) else tabs
  }

  lemma {:induction false} InsertedInWindow(layouts: seq<Layout>, k: nat, moved: Layout, t: nat, w: string)
    requires k < |layouts| && UniqueLayoutIds(layouts)
    ensures InWindow(Reinserted(layouts, k, moved, t), w) == WithTab(EraseLayout(InWindow(layouts, w), layouts[k].id), w, moved, t)
  {
    ReinsertedEffect(layouts, k, moved, t, w);
    InWindowUnique(layouts, w);
    InWindowMembers(layouts, w);
    RankInRange(layouts, k);
    hide InWindow, Reinserted, EraseLayout, InsertAt, RemoveAt;
    var tabs := InWindow(layouts, w);
    if w == layouts[k].windowId {
      assert tabs[RankOf(layouts, k)] == layouts[k];
      EraseLayoutIsRemove(tabs, RankOf(layouts, k));
    } else {
      OtherWindowLacks(layouts, k, w);
      EraseNothing(tabs, layouts[k].id);
    }
  }

  lemma {:induction false} OtherWindowLacks(layouts: seq<Layout>, k: nat, w: string)
    requires k < |layouts| && UniqueLayoutIds(layouts) && layouts[k].windowId != w
    ensures forall j :: 0 <= j < |InWindow(layouts, w)| ==> InWindow(layouts, w)[j].id != layouts[k].id
  {
    InWindowMembers(layouts, w);
    InWindowAllIn(layouts, w);
  }

  lemma {:induction false} FoundAfterInsert(layouts: seq<Layout>, k: nat, moved: Layout, t: nat, id: string)
    requires k < |layouts| && UniqueLayoutIds(layouts) && moved.id == layouts[k].id
    requires UniqueLayoutIds(Reinserted(layouts, k, moved, t))
    ensures var after := Reinserted(layouts, k, moved, t);
      var i, j := FindLayout(layouts, id), FindLayout(after, id);
      && (j < |after| <==> i < |layouts|)
      && (j < |after| ==> after[j] == if id == moved.id then moved else layouts[i])
  {
    hide FindLayout, Reinserted, UniqueLayoutIds;
    var after := Reinserted(layouts, k, moved, t);
    var i, j := FindLayout(layouts, id), FindLayout(after, id);
    if i < |layouts| {
      var place := StillListed(layouts, k, moved, t, i);
      FindUnique(after, place);
      FindUnique(layouts, i);
      FindUnique(layouts, k);
    }
    if j < |after| {
      var origin := ListedBefore(layouts, k, moved, t, j);
      FindUnique(layouts, origin);
    }
  }

  /** Every tab is in the list afterwards, the moved one as `moved`. */
  lemma {:induction false} StillListed(layouts: seq<Layout>, k: nat, moved: Layout, t: nat, i: nat) returns (place: nat)
    requires k < |layouts| && i < |layouts|
    ensures place < |Reinserted(layouts, k, moved, t)|
    ensures Reinserted(layouts, k, moved, t)[place] == if i == k then moved else layouts[i]
  {
    var rest := RemoveAt(layouts, k);
    var at := NthInWindow(rest, moved.windowId, t);
    hide NthInWindow;
    if i == k {
      place := at;
    } else {
      place := if i < k then i else i - 1;
      assert rest[place] == layouts[i];
      place := if place < at then place else place + 1;
    }
  }

  /** And no other. */
  lemma {:induction false} ListedBefore(layouts: seq<Layout>, k: nat, moved: Layout, t: nat, j: nat) returns (origin: nat)
    requires k < |layouts| && j < |Reinserted(layouts, k, moved, t)|
    ensures origin < |layouts| && Reinserted(layouts, k, moved, t)[j] == if origin == k then moved else layouts[origin]
  {
    var rest := RemoveAt(layouts, k);
    var at := NthInWindow(rest, moved.windowId, t);
    hide NthInWindow;
    if j == at {
      origin := k;
    } else {
      origin := if j < at then j else j - 1;
      assert Reinserted(layouts, k, moved, t)[j] == rest[origin];
      origin := if origin < k then origin else origin + 1;
    }
  }

  // ----- panes change tabs -----

  /** The session of this pane, if there is one, is registered under the tab and has the focus. */
  predicate LivesIn(view: View, pane: string, id: string) {
    forall i :: 0 <= i < |view.sessions| && view.sessions[i].paneId == pane ==>
      view.sessions[i].workspaceId == id && view.focusedTabId == view.sessions[i].id
  }

  lemma {:induction false} ActivePaneLives(view: View, k: nat)
    requires Coherent(view) && FocusFollows(view) && k < |view.Layouts()|
    requires IsLeaf(view.Layouts()[k].nodes, view.Layouts()[k].activePaneId)
    requires view.activeTabId == view.Layouts()[k].id
    ensures LivesIn(view, view.Layouts()[k].activePaneId, view.activeTabId)
  {
    hide PanesApart, FindLayout;
    CoherentParts(view);
    FindUnique(view.Layouts(), k);
    var nodes, pane := view.Layouts()[k].nodes, view.Layouts()[k].activePaneId;
    var n := FindNode(nodes, pane);
    forall i | 0 <= i < |view.sessions| && view.sessions[i].paneId == pane
      ensures view.sessions[i].workspaceId == view.activeTabId
    {
      assert IsPaneOf(nodes[n], view.sessions[i]);
    }
  }

  lemma {:induction false} ActiveIsLeaf(layout: Layout)
    requires ValidLayout(layout)
    ensures IsLeaf(layout.nodes, layout.activePaneId)
  {
  }

  /** The view after adopting the result of a transfer. */
  ghost predicate Transferred(view: View, transfer: Transfer, after: View) {
    && Follows(view, after) && after.activeTabId == transfer.targetWorkspaceId
    && ShownAsPromised(view.Layouts(), transfer, after.Layouts())
    && AsRequested(view.Layouts(), transfer, after.Layouts())
    && TabIds(after.Layouts()) == PromisedIds(view.Layouts(), transfer)
    && LivesIn(after, FocusOf(view, transfer), transfer.targetWorkspaceId)
  }

  /** The pane that has the focus in the end: the transferred one, or the active one of a merged tab. */
  function FocusOf(view: View, transfer: Transfer): string {
    if transfer.kind.MergeWorkspace? then ActiveIn(view.Layouts(), transfer.sourceWorkspaceId) else transfer.sourcePaneId
  }

  lemma {:induction false} PublishedTransfer(view: View, transfer: Transfer)
    requires Coherent(view) && TransferTerminalWorkspace(view.workspace, transfer).Some?
    ensures Transferred(view, transfer, Published(view, TransferTerminalWorkspace(view.workspace, transfer).value))
  {
    hide Coherent, Published, TransferTerminalWorkspace, Follows, ShownAsPromised, AsRequested, PromisedIds, FocusFollows, LivesIn, ValidState, ValidLayout;
    var state := TransferTerminalWorkspace(view.workspace, transfer).value;
    var after := Published(view, state);
    CoherentParts(view);
    TransferPublishedIsCoherent(view, transfer);
    PublishedFollows(view, state);
    FollowsParts(view, after);
    TransferShows(view.workspace, transfer, state);
    TransferArranges(view.workspace, transfer, state);
    TransferKeepsTabOrder(view.workspace, transfer, state);
    TransferFocuses(view.workspace, transfer);
    TransferPublishesValidStates(view.workspace, transfer);
    ValidParts(state);
    ActiveIsLeaf(state.terminalWorkspaces[FindLayout(state.terminalWorkspaces, transfer.targetWorkspaceId)]);
    ActivePaneLives(after, FindLayout(state.terminalWorkspaces, transfer.targetWorkspaceId));
  }

  lemma {:induction false} FollowsParts(before: View, after: View)
    requires Follows(before, after)
    ensures Coherent(after) && FocusFollows(after)
  {
    hide Coherent, FocusFollows;
  }

  /**
   A pane transfer answers true only if tabs and request allow it and the result is saved or nothing changes.
   Then every tab shows what was promised and the pane's session lives in the target tab and has the focus.
   An answer of false leaves everything as it was.
   */
  lemma {:induction false} TransferOutcome(view: View, transfer: Transfer, saved: bool)
    requires Coherent(view)
    ensures var (after, ok) := ApplyPaneTransfer(view, transfer, saved);
      var allowed := Free(view, transfer.sourceWorkspaceId) && Free(view, transfer.targetWorkspaceId) && TransferPossible(view.workspace, transfer);
      var idle := TransferTerminalWorkspace(view.workspace, transfer) == Some(view.workspace);
      && (!ok ==> after == view)
      && (ok ==> allowed && (saved || idle))
      && (allowed && saved && !idle ==> ok)
      && (ok && !idle ==> Transferred(view, transfer, after))
      && (allowed && idle ==> (after, ok) == ActivatePane(view, transfer.sourcePaneId))
  {
    hide Coherent, Published, TransferTerminalWorkspace, Transferred, Free, CanTransfer, TransferPossible, ActivatePane;
    FreeMeansTransferable(view, transfer.sourceWorkspaceId);
    FreeMeansTransferable(view, transfer.targetWorkspaceId);
    TransferSucceedsExactly(view.workspace, transfer);
    if TransferTerminalWorkspace(view.workspace, transfer).Some? {
      PublishedTransfer(view, transfer);
    }
    FailedActivation(view, transfer.sourcePaneId);
  }

  lemma {:induction false} FailedActivation(view: View, pane: string)
    ensures !ActivatePane(view, pane).1 ==> ActivatePane(view, pane).0 == view
  {
  }

  /** Activating a pane activates its tab and session, and makes it the tab's active pane. */
  lemma {:induction false} ActivateOutcome(view: View, pane: string)
    requires Coherent(view)
    ensures var (after, ok) := ActivatePane(view, pane);
      && (ok <==> exists i :: 0 <= i < |view.sessions| && view.sessions[i].paneId == pane && LayoutIn(view, view.sessions[i].workspaceId).Some?)
      && (!ok ==> after == view)
      && (ok ==>
           && Coherent(after) && after.sessions == view.sessions && after.pinned == view.pinned
           && LivesIn(after, pane, after.activeTabId) && LayoutIn(view, after.activeTabId).Some?
           && OnlyChanged(view, after, after.activeTabId, LayoutIn(view, after.activeTabId).value.(activePaneId := pane)))
  {
    hide PanesApart, Owned, FindLayout, UniqueLayoutIds, OnlyChanged, FocusedIn;
    ActivateKeepsCoherent(view, pane);
    var s := FindSessionForPane(view.sessions, pane);
    if s < |view.sessions| {
      var layouts := view.Layouts();
      var k := FindLayout(layouts, view.sessions[s].workspaceId);
      if k < |layouts| {
        UpdateChangesOne(view, ActivatePane(view, pane).0, k, layouts[k].(activePaneId := pane));
      }
    }
  }

  // ----- reattaching -----

  /** Reattaching brings a single pane back to the right of the active pane of the tab it came from, if there is room. */
  predicate GoesHome(view: View, id: string) {
    LayoutIn(view, id).Some? &&
    var tab := LayoutIn(view, id).value;
    var home := LayoutIn(view, tab.returnWorkspaceId);
    |tab.restoreIntents| == 1 && home.Some? && home.value.id != id && |home.value.restoreIntents| < 8
  }

  function HomeMerge(view: View, id: string, splitNodeId: string): Transfer
    requires GoesHome(view, id)
  {
    var home := LayoutIn(view, LayoutIn(view, id).value.returnWorkspaceId).value;
    Transfer(MergeWorkspace, id, "", home.id, home.activePaneId, splitNodeId, Horizontal, true)
  }

  /** Otherwise the whole tab comes back to the main window and is the active one. */
  lemma {:induction false} ReattachOutcome(view: View, id: string, splitNodeId: string, saved: bool)
    requires Coherent(view)
    ensures var (after, ok) := ReattachTab(view, id, splitNodeId, saved);
      && (ok <==>
           && LayoutIn(view, id).Some? && LayoutIn(view, id).value.windowId != "main" && Free(view, id) && saved
           && (GoesHome(view, id) ==>
                var merge := HomeMerge(view, id, splitNodeId);
                Free(view, merge.targetWorkspaceId) && TransferPossible(view.workspace, merge)))
      && (!ok ==> after == view)
      && (ok && GoesHome(view, id) ==> Transferred(view, HomeMerge(view, id, splitNodeId), after))
      && (ok && !GoesHome(view, id) ==>
           && Follows(view, after) && after.activeTabId == id
           && OnlyChanged(view, after, id, InWindowOf(LayoutIn(view, id).value, "main", "")))
  {
    hide Coherent, Published, FindLayout, CanTransfer, Free, Follows, OnlyChanged, TransferTerminalWorkspace, Transferred, TransferPossible;
    CoherentParts(view);
    FreeMeansTransferable(view, id);
    var layouts := view.Layouts();
    var k := FindLayout(layouts, id);
    if k < |layouts| {
      if GoesHome(view, id) {
        var merge := HomeMerge(view, id, splitNodeId);
        FreeMeansTransferable(view, merge.targetWorkspaceId);
        TransferSucceedsExactly(view.workspace, merge);
        if TransferTerminalWorkspace(view.workspace, merge).Some? {
          PublishedTransfer(view, merge);
        }
      } else {
        var attached := InWindowOf(layouts[k], "main", "");
        var state := view.workspace.(terminalWorkspaces := layouts[k := attached], activeTerminalWorkspaceId := id);
        UpdatePublishedIsCoherent(view, state, k, attached);
        PublishedFollows(view, state);
        UpdateChangesOne(view, Published(view, state), k, attached);
      }
    }
  }

  // ----- detaching a pane -----

  /** The tab that the pane's session is registered under. */
  function HomeOf(view: View, pane: string): Option<string> {
    var s := FindSessionForPane(view.sessions, pane);
    if s < |view.sessions| && LayoutIn(view, view.sessions[s].workspaceId).Some? then Some(view.sessions[s].workspaceId) else None
  }

  /** The pane moves to a new tab, in a window of its own, that remembers where it came from. */
  ghost predicate PaneDetached(view: View, pane: string, home: string, newId: string, newWindowId: string, after: View) {
    var extract := Extraction(home, pane, newId);
    && Follows(view, after) && after.activeTabId == newId && LivesIn(after, pane, newId)
    && TabIds(after.Layouts()) == PromisedIds(view.Layouts(), extract)
    && (forall id :: id != newId ==> TabIn(after.Layouts(), id) == Promised(view.Layouts(), extract, id))
    && LayoutIn(after, newId).Some?
    && LayoutIn(after, newId).value.windowId == newWindowId && LayoutIn(after, newId).value.returnWorkspaceId == home
    && Promised(view.Layouts(), extract, newId).Some?
    && (BoundedText(newWindowId, 128, false) ==>
         TabIn(after.Layouts(), newId) == Some(Promised(view.Layouts(), extract, newId).value.(windowId := newWindowId, returnWorkspaceId := home)))
  }

  function Extraction(home: string, pane: string, newId: string): Transfer {
    Transfer(ExtractPane, home, pane, newId, "", "", Horizontal, true)
  }

  /** Window and return address do not matter for the screen, nor for validity if they are proper texts. */
  lemma {:induction false} RelocatedShows(layout: Layout, windowId: string, returnId: string)
    requires ValidLayout(layout) && BoundedText(windowId, 128, false) && BoundedText(returnId, 128, true)
    ensures ValidLayout(InWindowOf(layout, windowId, returnId))
    ensures TabOf(InWindowOf(layout, windowId, returnId)) == TabOf(layout).(windowId := windowId, returnWorkspaceId := returnId)
  {
    hide ValidLayout, BoundedText, ValidIntent, ScreenOf, IsWhole, AllFit, RefsMatched, LeafRefs, IsLeaf;
    var moved := InWindowOf(layout, windowId, returnId);
    Disassembled(layout);
    WholeIgnoresFocus(layout, moved, TreeOf(layout));
    assert FrameInOrder(moved);
    Assembled(moved, TreeOf(layout));
    SameScreen(layout, moved);
  }

  lemma {:induction false} TabFromLayout(view: View, id: string)
    ensures TabIn(view.Layouts(), id)
      == var layout := LayoutIn(view, id);
         if layout.Some? && ValidLayout(layout.value) then Some(TabOf(layout.value)) else None
  {
    hide ValidLayout, TabOf;
  }

  lemma {:induction false} LastIsNew(layouts: seq<Layout>, transfer: Transfer, after: seq<Layout>)
    requires TabIds(after) == PromisedIds(layouts, transfer) && transfer.kind.ExtractPane?
    ensures after != [] && after[|after| - 1].id == transfer.targetWorkspaceId
  {
    assert |TabIds(after)| == |after|;
    assert TabIds(after)[|after| - 1] == transfer.targetWorkspaceId;
  }

  lemma {:induction false} PublishedExtraction(view: View, home: string, pane: string, newId: string, newWindowId: string)
    requires Coherent(view) && TransferTerminalWorkspace(view.workspace, Extraction(home, pane, newId)).Some?
    requires BoundedText(home, 128, true)
    ensures var state := TransferTerminalWorkspace(view.workspace, Extraction(home, pane, newId)).value;
      && state.terminalWorkspaces != []
      && PaneDetached(view, pane, home, newId, newWindowId, Published(view, InOwnWindow(state, newWindowId, home)))
  {
    hide Coherent, Published, TransferTerminalWorkspace, Follows, PromisedIds, Promised, FocusFollows, LivesIn, ValidState, ValidLayout, TabIn, OnlyChanged, FindLayout, TabIds, BoundedText;
    var extract := Extraction(home, pane, newId);
    var state := TransferTerminalWorkspace(view.workspace, extract).value;
    CoherentParts(view);
    TransferKeepsTabOrder(view.workspace, extract, state);
    LastIsNew(view.Layouts(), extract, state.terminalWorkspaces);
    TransferPublishedIsCoherent(view, extract);
    TransferPublishesValidStates(view.workspace, extract);
    ValidParts(state);
    var last := |state.terminalWorkspaces| - 1;
    var moved := InWindowOf(state.terminalWorkspaces[last], newWindowId, home);
    var after := Published(view, InOwnWindow(state, newWindowId, home));
    DetachedPaneIsCoherent(view, extract, newWindowId, home);
    PublishedFollows(view, InOwnWindow(state, newWindowId, home));
    FollowsParts(view, after);
    var between := view.(workspace := state);
    UpdateChangesOne(between, after, last, moved);
    ChangedTabs(view, extract, between, after, moved);
    TransferFocuses(view.workspace, extract);
    ActiveOfLast(state.terminalWorkspaces, newId);
    ActiveIsLeaf(state.terminalWorkspaces[last]);
    ActivePaneLives(after, last);
  }

  lemma {:induction false} ActiveOfLast(layouts: seq<Layout>, id: string)
    requires UniqueLayoutIds(layouts) && layouts != [] && layouts[|layouts| - 1].id == id
    ensures ActiveIn(layouts, id) == layouts[|layouts| - 1].activePaneId
  {
    hide FindLayout;
    FindUnique(layouts, |layouts| - 1);
  }

  lemma {:induction false} ChangedTabs(view: View, transfer: Transfer, between: View, after: View, moved: Layout)
    requires TransferTerminalWorkspace(view.workspace, transfer) == Some(between.workspace)
    requires OnlyChanged(between, after, transfer.targetWorkspaceId, moved) && moved.id == transfer.targetWorkspaceId
    requires LayoutIn(between, transfer.targetWorkspaceId).Some? && ValidLayout(LayoutIn(between, transfer.targetWorkspaceId).value)
    requires BoundedText(moved.returnWorkspaceId, 128, true)
    requires moved == InWindowOf(LayoutIn(between, transfer.targetWorkspaceId).value, moved.windowId, moved.returnWorkspaceId)
    ensures forall id :: id != moved.id ==> TabIn(after.Layouts(), id) == Promised(view.Layouts(), transfer, id)
    ensures Promised(view.Layouts(), transfer, moved.id).Some?
    ensures BoundedText(moved.windowId, 128, false) ==>
      TabIn(after.Layouts(), moved.id)
        == Some(Promised(view.Layouts(), transfer, moved.id).value.(windowId := moved.windowId, returnWorkspaceId := moved.returnWorkspaceId))
  {
    hide ValidLayout, TabIn, TabOf, Promised, BoundedText, TransferTerminalWorkspace, LayoutIn;
    TransferShows(view.workspace, transfer, between.workspace);
    forall id
      ensures id != moved.id ==> TabIn(after.Layouts(), id) == TabIn(between.Layouts(), id)
    {
      TabFromLayout(after, id);
      TabFromLayout(between, id);
    }
    TabFromLayout(after, moved.id);
    TabFromLayout(between, moved.id);
    if BoundedText(moved.windowId, 128, false) {
      RelocatedShows(LayoutIn(between, moved.id).value, moved.windowId, moved.returnWorkspaceId);
    }
  }

  /** Detaching a pane: the only pane of a tab takes its tab along, any other becomes a tab in a window of its own. */
  lemma {:induction false} DetachPaneOutcome(view: View, pane: string, newId: string, newWindowId: string, saved: bool)
    requires Coherent(view)
    ensures var (after, id) := DetachPane(view, pane, newId, newWindowId, saved);
      var home := HomeOf(view, pane);
      if home.None? || !Free(view, home.value) then after == view && id == ""
      else if |LayoutIn(view, home.value).value.restoreIntents| == 1 then
        var (detached, ok) := DetachTab(view, home.value, newWindowId, saved);
        after == detached && id == if ok then home.value else ""
      else if TransferPossible(view.workspace, Extraction(home.value, pane, newId)) && saved then
        id == newId && PaneDetached(view, pane, home.value, newId, newWindowId, after)
      else after == view && id == ""
  {
    hide Coherent, Published, FindLayout, FindSessionForPane, CanTransfer, Free, TransferTerminalWorkspace, TransferPossible, DetachTab, PaneDetached, InOwnWindow;
    var s := FindSessionForPane(view.sessions, pane);
    if s < |view.sessions| {
      var home := view.sessions[s].workspaceId;
      FreeMeansTransferable(view, home);
      TransferSucceedsExactly(view.workspace, Extraction(home, pane, newId));
      if TransferTerminalWorkspace(view.workspace, Extraction(home, pane, newId)).Some? && LayoutIn(view, home).Some? {
        IdIsBounded(view, Extraction(home, pane, newId));
        PublishedExtraction(view, home, pane, newId, newWindowId);
      }
    }
  }

  lemma {:induction false} IdIsBounded(view: View, transfer: Transfer)
    requires TransferTerminalWorkspace(view.workspace, transfer).Some? && LayoutIn(view, transfer.sourceWorkspaceId).Some?
    ensures BoundedText(transfer.sourceWorkspaceId, 128, true)
  {
    hide FindLayout, ValidLayout;
    ValidParts(view.workspace);
    BoundedId(view.Layouts()[FindLayout(view.Layouts(), transfer.sourceWorkspaceId)]);
  }

  lemma {:induction false} BoundedId(layout: Layout)
    requires ValidLayout(layout)
    ensures BoundedText(layout.id, 128, true)
  {
  }

  // ----- dragging and pinning -----

  /** Dragging names the tab by its id or one of its sessions, and refuses ranks outside of its window. */
  lemma {:induction false} MoveOutcome(view: View, id: string, targetIndex: int, saved: bool)
    requires Coherent(view)
    ensures var (after, ok) := MoveTab(view, id, targetIndex, saved);
      var tab := NamedTab(view, id);
      && (!ok ==> after == view)
      && (tab.None? ==> !ok)
      && (tab.Some? ==>
           var tabs := TabIds(InWindow(view.Layouts(), tab.value.windowId));
           && (ok <==> 0 <= targetIndex < |tabs| && (saved || tabs[targetIndex] == tab.value.id))
           && (ok ==>
                && after == view.(workspace := view.workspace.(terminalWorkspaces := after.Layouts()))
                && multiset(after.Layouts()) == multiset(view.Layouts())
                && (forall w :: w != tab.value.windowId ==> InWindow(after.Layouts(), w) == InWindow(view.Layouts(), w))
                && EraseLayout(InWindow(after.Layouts(), tab.value.windowId), tab.value.id)
                     == EraseLayout(InWindow(view.Layouts(), tab.value.windowId), tab.value.id)
                && targetIndex < |InWindow(after.Layouts(), tab.value.windowId)|
                && InWindow(after.Layouts(), tab.value.windowId)[targetIndex] == tab.value))
  {
    hide Coherent, FindLayout, InWindow, MovedWithin, EraseLayout, TabIds, RankOf;
    CoherentParts(view);
    var layouts := view.Layouts();
    var k := FindLayout(layouts, WorkspaceIdFor(view, id));
    if k < |layouts| {
      var tabs := InWindow(layouts, layouts[k].windowId);
      FindUnique(layouts, k);
      PositionIsRank(layouts, k);
      InWindowUnique(layouts, layouts[k].windowId);
      RankedThere(tabs, RankOf(layouts, k));
      if 0 <= targetIndex < |tabs| {
        DraggedTo(layouts, k, targetIndex);
        RankInRange(layouts, k);
      }
    }
  }

  lemma {:induction false} RankedThere(tabs: seq<Layout>, r: nat)
    requires UniqueLayoutIds(tabs) && r < |tabs|
    ensures forall t :: 0 <= t < |tabs| ==> (TabIds(tabs)[t] == tabs[r].id <==> t == r)
  {
    hide TabIds;
  }

  lemma {:induction false} DraggedTo(layouts: seq<Layout>, k: nat, t: nat)
    requires UniqueLayoutIds(layouts) && k < |layouts| && t < |InWindow(layouts, layouts[k].windowId)|
    ensures var w, after := layouts[k].windowId, MovedWithin(layouts, k, t);
      && multiset(after) == multiset(layouts)
      && (forall v :: v != w ==> InWindow(after, v) == InWindow(layouts, v))
      && EraseLayout(InWindow(after, w), layouts[k].id) == EraseLayout(InWindow(layouts, w), layouts[k].id)
      && t < |InWindow(after, w)| && InWindow(after, w)[t] == layouts[k]
  {
    hide InWindow, MovedWithin, EraseLayout, UniqueLayoutIds, RemoveAt, InsertAt, RankOf;
    var w, after := layouts[k].windowId, MovedWithin(layouts, k, t);
    var tabs, r := InWindow(layouts, w), RankOf(layouts, k);
    MovedWithinPlaces(layouts, k, t);
    UniquePermuted(layouts, after);
    InWindowUnique(layouts, w);
    InWindowUnique(after, w);
    forall v
      ensures v != w ==> InWindow(after, v) == InWindow(layouts, v)
    {
      MovedWithinOrder(layouts, k, t, v);
    }
    MovedWithinOrder(layouts, k, t, w);
    RankInRange(layouts, k);
    InsertThenRemove(RemoveAt(tabs, r), t, tabs[r]);
    EraseLayoutIsRemove(tabs, r);
    EraseLayoutIsRemove(InWindow(after, w), t);
  }

  function NamedTab(view: View, id: string): Option<Layout> {
    if LayoutIn(view, id).Some? then LayoutIn(view, id)
    else
      var s := FindSession(view.sessions, id);
      if s < |view.sessions| then LayoutIn(view, view.sessions[s].workspaceId) else None
  }

  /** Pinning applies to the active tab, and doing it twice changes nothing. */
  lemma {:induction false} ToggleOutcome(view: View)
    requires Coherent(view)
    ensures var (after, ok) := TogglePinned(view);
      && (ok <==> view.activeTabId != "" && LayoutIn(view, view.activeTabId).Some?)
      && (!ok ==> after == view)
      && (ok ==>
           && after == view.(pinned := after.pinned)
           && (forall id :: id != view.activeTabId ==> (id in after.pinned <==> id in view.pinned))
           && (view.activeTabId in after.pinned <==> view.activeTabId !in view.pinned))
  {
    hide Coherent;
  }
}
