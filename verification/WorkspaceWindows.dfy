/**
 The controller's side of tabs and windows: moving, inserting, detaching and reattaching tabs,
 detaching panes, and publishing which session belongs to which tab.

 `View` is the controller's data; the functions on it say what each operation does, the class
 performs the operations on its fields, and the lemmas prove that the registry of sessions, the
 pinned tabs and the active tab agree with the layouts in every run.
 */
module WorkspaceWindows {
  import opened Lists
  import opened WorkspaceState
  import opened WorkspaceTransfer
  import opened TabOrder

  /** A live session: its pane and the tab it is registered under. */
  datatype Session = Session(id: string, paneId: string, workspaceId: string)

  datatype View = View(
    workspace: State,
    sessions: seq<Session>,
    pinned: set<string>,
    activeTabId: string,
    focusedTabId: string,
    shutdownStarted: bool,
    hostKeyTabId: string,
    preedit: set<string>)
  {
    function Layouts(): seq<Layout> {
      workspace.terminalWorkspaces
    }
  }

  // ----- lookups -----

  function FindSession(sessions: seq<Session>, id: string): (k: nat)
    ensures k <= |sessions|
    ensures k < |sessions| ==> sessions[k].id == id
  {
    if sessions == [] || sessions[0].id == id then 0 else 1 + FindSession(sessions[1..], id)
  }

  function FindSessionForPane(sessions: seq<Session>, paneId: string): (k: nat)
    ensures k <= |sessions|
    ensures k < |sessions| ==> sessions[k].paneId == paneId
    ensures forall i :: 0 <= i < k ==> sessions[i].paneId != paneId
  {
    if sessions == [] || sessions[0].paneId == paneId then 0 else 1 + FindSessionForPane(sessions[1..], paneId)
  }

  predicate HasLayout(layouts: seq<Layout>, id: string) {
    FindLayout(layouts, id) < |layouts|
  }

  /** No input method composition is in progress in the tab, and nothing else forbids changes. */
  predicate CanTransfer(view: View, workspaceId: string) {
    && !view.shutdownStarted && view.hostKeyTabId == ""
    && forall k :: 0 <= k < |view.sessions| ==>
         !(view.sessions[k].workspaceId == workspaceId && view.sessions[k].paneId in view.preedit)
  }

  // ----- publishing ownership -----

  /** The session of every leaf is registered under `layoutId`. */
  function ClaimLeaves(sessions: seq<Session>, nodes: seq<Node>, layoutId: string): (r: seq<Session>)
    ensures |r| == |sessions|
    decreases |nodes|
  {
    if nodes == [] then sessions
    else ClaimLeaves(Claim(sessions, nodes[0], layoutId), nodes[1..], layoutId)
  }

  function Claim(sessions: seq<Session>, node: Node, layoutId: string): (r: seq<Session>)
    ensures |r| == |sessions|
  {
    var k := FindSessionForPane(sessions, node.id);
    if node.kind.Leaf? && k < |sessions| then sessions[k := sessions[k].(workspaceId := layoutId)] else sessions
  }

  function ClaimAll(sessions: seq<Session>, layouts: seq<Layout>): (r: seq<Session>)
    ensures |r| == |sessions|
    decreases |layouts|
  {
    if layouts == [] then sessions
    else ClaimAll(ClaimLeaves(sessions, layouts[0].nodes, layouts[0].id), layouts[1..])
  }

  function FocusedIn(layouts: seq<Layout>, sessions: seq<Session>, activeTabId: string): string {
    var k := FindLayout(layouts, activeTabId);
    if k == |layouts| then ""
    else
      var s := FindSessionForPane(sessions, layouts[k].activePaneId);
      if s == |sessions| then "" else sessions[s].id
  }

  /** Adopting a new state and publishing it. */
  function Published(view: View, state: State): View {
    var layouts := state.terminalWorkspaces;
    var sessions := ClaimAll(view.sessions, layouts);
    view.(workspace := state,
          sessions := sessions,
          pinned := (set id | id in view.pinned && HasLayout(layouts, id)),
          activeTabId := state.activeTerminalWorkspaceId,
          focusedTabId := FocusedIn(layouts, sessions, state.activeTerminalWorkspaceId))
  }

  // ----- the operations -----

  /** The outcome of a save decides between the new view and the old one. */
  function IfSaved(saved: bool, after: View, before: View): (View, bool) {
    if saved then (after, true) else (before, false)
  }

  /** A tab may be named by its own id or by the id of one of its sessions. */
  function WorkspaceIdFor(view: View, id: string): string {
    if HasLayout(view.Layouts(), id) then id
    else
      var s := FindSession(view.sessions, id);
      if s < |view.sessions| then view.sessions[s].workspaceId else id
  }

  function MoveTab(view: View, id: string, targetIndex: int, saved: bool): (View, bool) {
    var layouts := view.Layouts();
    var k := FindLayout(layouts, WorkspaceIdFor(view, id));
    if k == |layouts| || targetIndex < 0 || targetIndex >= |InWindow(layouts, layouts[k].windowId)| then (view, false)
    else if targetIndex == RankOf(layouts, k) then (view, true)
    else
      IfSaved(saved, view.(workspace := view.workspace.(terminalWorkspaces := MovedWithin(layouts, k, targetIndex))), view)
  }

  function DetachTab(view: View, workspaceId: string, newWindowId: string, saved: bool): (View, bool) {
    var layouts := view.Layouts();
    var k := FindLayout(layouts, workspaceId);
    if !CanTransfer(view, workspaceId) || k == |layouts| then (view, false)
    else if layouts[k].windowId != "main" && |InWindow(layouts, layouts[k].windowId)| == 1 then (view, true)
    else
      var detached := layouts[k].(windowId := newWindowId, returnWorkspaceId := "");
      IfSaved(saved, Published(view, view.workspace.(terminalWorkspaces := layouts[k := detached])), view)
  }

  function ReattachTab(view: View, workspaceId: string, splitNodeId: string, saved: bool): (View, bool) {
    var layouts := view.Layouts();
    var k := FindLayout(layouts, workspaceId);
    if k == |layouts| || layouts[k].windowId == "main" || !CanTransfer(view, workspaceId) then (view, false)
    else
      var d := FindLayout(layouts, layouts[k].returnWorkspaceId);
      if |layouts[k].restoreIntents| == 1 && d < |layouts| && layouts[d].id != layouts[k].id
         && |layouts[d].restoreIntents| < MAXIMUM_PANES then
        var merge := Transfer(MergeWorkspace, layouts[k].id, "", layouts[d].id, layouts[d].activePaneId, splitNodeId, Horizontal, true);
        var merged := TransferTerminalWorkspace(view.workspace, merge);
        if !CanTransfer(view, layouts[d].id) || merged.None? then (view, false)
        else IfSaved(saved, Published(view, merged.value), view)
      else
        var attached := layouts[k].(windowId := "main", returnWorkspaceId := "");
        var state := view.workspace.(terminalWorkspaces := layouts[k := attached], activeTerminalWorkspaceId := attached.id);
        IfSaved(saved, Published(view, state), view)
  }

  function InsertTab(view: View, workspaceId: string, targetIndex: int, windowId: string, saved: bool): (View, bool) {
    var layouts := view.Layouts();
    var k := FindLayout(layouts, workspaceId);
    if !CanTransfer(view, workspaceId) || targetIndex < 0
       || (windowId != "main" && InWindow(layouts, windowId) == []) || k == |layouts| then (view, false)
    else
      var state := view.workspace.(terminalWorkspaces := Reinserted(layouts, k, Relocated(layouts[k], windowId), targetIndex),
                                   activeTerminalWorkspaceId := workspaceId);
      IfSaved(saved, Published(view, state), view)
  }

  /** A tab that changes windows forgets where it was detached from. */
  function Relocated(layout: Layout, windowId: string): Layout {
    layout.(windowId := windowId, returnWorkspaceId := if layout.windowId != windowId then "" else layout.returnWorkspaceId)
  }

  function ActivatePane(view: View, paneId: string): (View, bool) {
    var s := FindSessionForPane(view.sessions, paneId);
    if s == |view.sessions| then (view, false)
    else
      var layouts, session := view.Layouts(), view.sessions[s];
      var k := FindLayout(layouts, session.workspaceId);
      if k == |layouts| then (view, false)
      else
        (view.(activeTabId := session.workspaceId, focusedTabId := session.id,
               workspace := view.workspace.(terminalWorkspaces := layouts[k := layouts[k].(activePaneId := paneId)],
                                            activeTerminalWorkspaceId := session.workspaceId)), true)
  }

  function ApplyPaneTransfer(view: View, transfer: Transfer, saved: bool): (View, bool) {
    var candidate := TransferTerminalWorkspace(view.workspace, transfer);
    if !CanTransfer(view, transfer.sourceWorkspaceId) || !CanTransfer(view, transfer.targetWorkspaceId) || candidate.None? then
      (view, false)
    else if candidate.value == view.workspace then ActivatePane(view, transfer.sourcePaneId)
    else IfSaved(saved, Published(view, candidate.value), view)
  }

  /** Detaching a pane of a split tab makes it a tab in a window of its own. */
  function DetachPane(view: View, paneId: string, newId: string, newWindowId: string, saved: bool): (View, string) {
    var s := FindSessionForPane(view.sessions, paneId);
    if s == |view.sessions| || !CanTransfer(view, view.sessions[s].workspaceId) then (view, "")
    else
      var layouts, workspaceId := view.Layouts(), view.sessions[s].workspaceId;
      var k := FindLayout(layouts, workspaceId);
      if k == |layouts| then (view, "")
      else if |layouts[k].restoreIntents| == 1 then
        var (after, ok) := DetachTab(view, workspaceId, newWindowId, saved);
        (after, if ok then workspaceId else "")
      else
        var extract := Transfer(ExtractPane, layouts[k].id, paneId, newId, "", "", Horizontal, true);
        var extracted := TransferTerminalWorkspace(view.workspace, extract);
        if extracted.None? || !saved then (view, "")
        else
          TransferPublishesValidStates(view.workspace, extract);
          (Published(view, InOwnWindow(extracted.value, newWindowId, layouts[k].id)), newId)
  }

  function InOwnWindow(state: State, windowId: string, returnId: string): State
    requires state.terminalWorkspaces != []
  {
    var last := |state.terminalWorkspaces| - 1;
    state.(terminalWorkspaces := state.terminalWorkspaces[last :=
      state.terminalWorkspaces[last].(windowId := windowId, returnWorkspaceId := returnId)])
  }

  function TogglePinned(view: View): (View, bool) {
    if view.activeTabId == "" || !HasLayout(view.Layouts(), view.activeTabId) then (view, false)
    else if view.activeTabId in view.pinned then (view.(pinned := view.pinned - {view.activeTabId}), true)
    else (view.(pinned := view.pinned + {view.activeTabId}), true)
  }

  // ----- coherence -----

  /** Every session whose pane is a leaf of some tab is registered under this tab. */
  ghost predicate Owned(layouts: seq<Layout>, sessions: seq<Session>) {
    forall i, k, n :: 0 <= i < |sessions| && 0 <= k < |layouts| && 0 <= n < |layouts[k].nodes| ==>
      IsPaneOf(layouts[k].nodes[n], sessions[i]) ==> sessions[i].workspaceId == layouts[k].id
  }

  predicate IsPaneOf(node: Node, session: Session) {
    node.kind.Leaf? && node.id == session.paneId
  }

  predicate OneSessionPerPane(sessions: seq<Session>) {
    forall i, j :: 0 <= i < j < |sessions| ==> sessions[i].paneId != sessions[j].paneId
  }

  ghost predicate Coherent(view: View) {
    && UniqueLayoutIds(view.Layouts())
    && PanesApart(view.Layouts())
    && OneSessionPerPane(view.sessions)
    && Owned(view.Layouts(), view.sessions)
    && (forall id :: id in view.pinned ==> HasLayout(view.Layouts(), id))
    && view.activeTabId == view.workspace.activeTerminalWorkspaceId
    && ActiveExists(view.Layouts(), view.activeTabId)
    && view.focusedTabId == FocusedIn(view.Layouts(), view.sessions, view.activeTabId)
  }

  /** If there are tabs, the active one is among them. */
  predicate ActiveExists(layouts: seq<Layout>, id: string) {
    layouts != [] ==> HasLayout(layouts, id)
  }

  // ----- the controller -----

  class AppController {
    var workspaceState: State
    var sessions: seq<Session>
    var pinnedTerminalWorkspaceIds: set<string>
    var activeTabId: string
    var focusedTabId: string
    var shutdownStarted: bool
    var hostKeyTabId: string
    var preeditPanes: set<string>

    constructor (state: State, sessions: seq<Session>)
      requires UniqueLayoutIds(state.terminalWorkspaces) && PanesApart(state.terminalWorkspaces) && OneSessionPerPane(sessions)
      ensures AsView() == Published(View(state, sessions, {}, "", "", false, "", {}), state)
    {
      workspaceState := state;
      this.sessions := sessions;
      pinnedTerminalWorkspaceIds := {};
      activeTabId := "";
      focusedTabId := "";
      shutdownStarted := false;
      hostKeyTabId := "";
      preeditPanes := {};
      new;
      PublishTerminalOwnership();
    }

    function AsView(): View
      reads this
    {
      View(workspaceState, sessions, pinnedTerminalWorkspaceIds, activeTabId, focusedTabId, shutdownStarted, hostKeyTabId, preeditPanes)
    }

    method PublishTerminalOwnership()
      modifies this
      ensures AsView() == Published(old(AsView()), old(workspaceState))
    {
      hide FindLayout, FindSessionForPane, ClaimAll, ClaimLeaves;
      ghost var before := AsView();
      var layouts := workspaceState.terminalWorkspaces;
      pinnedTerminalWorkspaceIds := set id | id in pinnedTerminalWorkspaceIds && HasLayout(layouts, id);
      ghost var pinned := pinnedTerminalWorkspaceIds;
      var k := 0;
      assert layouts[0..] == layouts;
      while k < |layouts|
        invariant 0 <= k <= |layouts|
        invariant ClaimAll(sessions, layouts[k..]) == ClaimAll(before.sessions, layouts)
        invariant AsView() == before.(sessions := sessions, pinned := pinned)
      {
        ghost var was := sessions;
        ClaimAllOne(was, layouts, k);
        ClaimLeavesOf(layouts[k]);
        k := k + 1;
      }
      ClaimAllNone(sessions);
      assert layouts[|layouts|..] == [];
      activeTabId := workspaceState.activeTerminalWorkspaceId;
      var active := FindLayout(layouts, activeTabId);
      focusedTabId := "";
      if active < |layouts| {
        var session := FindSessionForPane(sessions, layouts[active].activePaneId);
        if session < |sessions| {
          focusedTabId := sessions[session].id;
        }
      }
    }

    method ClaimLeavesOf(layout: Layout)
      modifies this`sessions
      ensures sessions == ClaimLeaves(old(sessions), layout.nodes, layout.id)
    {
      hide FindSessionForPane;
      ghost var before := sessions;
      assert layout.nodes[0..] == layout.nodes;
      for n := 0 to |layout.nodes|
        invariant ClaimLeaves(sessions, layout.nodes[n..], layout.id) == ClaimLeaves(before, layout.nodes, layout.id)
      {
        assert layout.nodes[n..][1..] == layout.nodes[n + 1..];
        if layout.nodes[n].kind.Split? {
          continue;
        }
        var session := FindSessionForPane(sessions, layout.nodes[n].id);
        if session < |sessions| {
          sessions := sessions[session := sessions[session].(workspaceId := layout.id)];
        }
      }
    }

    /** The tabs of one window, collected in order. */
    method CollectWindow(windowId: string) returns (ordered: seq<Layout>)
      ensures ordered == InWindow(workspaceState.terminalWorkspaces, windowId)
    {
      var layouts := workspaceState.terminalWorkspaces;
      ordered := [];
      assert layouts[0..] == layouts;
      for k := 0 to |layouts|
        invariant ordered + InWindow(layouts[k..], windowId) == InWindow(layouts, windowId)
      {
        assert layouts[k..][1..] == layouts[k + 1..];
        if layouts[k].windowId == windowId {
          ordered := ordered + [layouts[k]];
        }
      }
    }

    /** `ordered` is written over the window's slots, first to last. */
    method OverwriteWindow(windowId: string, ordered: seq<Layout>) returns (candidate: seq<Layout>)
      requires |ordered| == |InWindow(workspaceState.terminalWorkspaces, windowId)|
      ensures candidate == WriteBack(workspaceState.terminalWorkspaces, windowId, ordered)
    {
      hide InWindow, WriteBack;
      var layouts := workspaceState.terminalWorkspaces;
      candidate := layouts;
      var next := 0;
      assert layouts[0..] == layouts && ordered[0..] == ordered;
      for k := 0 to |layouts|
        invariant 0 <= next <= |ordered| && |candidate| == |layouts|
        invariant candidate[k..] == layouts[k..]
        invariant |ordered[next..]| == |InWindow(layouts[k..], windowId)|
        invariant candidate[..k] + WriteBack(layouts[k..], windowId, ordered[next..]) == WriteBack(layouts, windowId, ordered)
      {
        WriteBackOne(layouts, k, windowId, ordered[next..]);
        assert candidate[k] == layouts[k];
        assert candidate[..k + 1] == candidate[..k] + [candidate[k]];
        if layouts[k].windowId == windowId {
          ghost var before := candidate;
          candidate := candidate[k := ordered[next]];
          assert candidate[..k + 1] == before[..k] + [ordered[next]];
          assert ordered[next..][1..] == ordered[next + 1..];
          next := next + 1;
        }
      }
      WriteBackNone(windowId);
      assert layouts[|layouts|..] == [] && candidate[..|layouts|] == candidate;
    }

    /** The two rotations of the ordered tabs, one for each direction. */
    static method RotateInto(ordered: seq<Layout>, position: nat, destination: nat) returns (rotated: seq<Layout>)
      requires position < |ordered| && destination < |ordered| && position != destination
      ensures rotated == MoveItem(ordered, position, destination)
    {
      RotateIsMove(ordered, position, destination);
      hide Rotate, MoveItem;
      if position < destination {
        rotated := Rotate(ordered, position, position + 1, destination + 1);
      } else {
        rotated := Rotate(ordered, destination, position, position + 1);
      }
    }

    method MoveTerminalTab(id: string, targetIndex: int, saved: bool) returns (ok: bool)
      requires UniqueLayoutIds(workspaceState.terminalWorkspaces)
      modifies this
      ensures (AsView(), ok) == MoveTab(old(AsView()), id, targetIndex, saved)
    {
      var layouts := workspaceState.terminalWorkspaces;
      var workspaceId := id;
      if !HasLayout(layouts, id) {
        var session := FindSession(sessions, id);
        if session < |sessions| {
          workspaceId := sessions[session].workspaceId;
        }
      }
      var source := FindLayout(layouts, workspaceId);
      if source == |layouts| || targetIndex < 0 {
        return false;
      }
      var windowId := layouts[source].windowId;
      var ordered := CollectWindow(windowId);
      if targetIndex >= |ordered| {
        return false;
      }
      var position := FindLayout(ordered, layouts[source].id);
      PositionIsRank(layouts, source);
      if position == targetIndex {
        return true;
      }
      MoveItemHits(ordered, position, targetIndex);
      hide MoveItem, FindLayout;
      ordered := RotateInto(ordered, position, targetIndex);
      var candidate := OverwriteWindow(windowId, ordered);
      if !saved {
        return false;
      }
      workspaceState := workspaceState.(terminalWorkspaces := candidate);
      return true;
    }

    method DetachTerminalWorkspace(workspaceId: string, newWindowId: string, saved: bool) returns (ok: bool)
      modifies this
      ensures (AsView(), ok) == DetachTab(old(AsView()), workspaceId, newWindowId, saved)
    {
      hide Published, InWindow, FindLayout;
      var layouts := workspaceState.terminalWorkspaces;
      var found := FindLayout(layouts, workspaceId);
      if !CanTransfer(AsView(), workspaceId) || found == |layouts| {
        return false;
      }
      if layouts[found].windowId != "main" && |InWindow(layouts, layouts[found].windowId)| == 1 {
        return true;
      }
      var candidate := layouts[found := layouts[found].(windowId := newWindowId, returnWorkspaceId := "")];
      if !saved {
        return false;
      }
      workspaceState := workspaceState.(terminalWorkspaces := candidate);
      PublishedAgain(old(AsView()), workspaceState);
      PublishTerminalOwnership();
      return true;
    }

    method ReattachTerminalWorkspace(workspaceId: string, splitNodeId: string, saved: bool) returns (ok: bool)
      modifies this
      ensures (AsView(), ok) == ReattachTab(old(AsView()), workspaceId, splitNodeId, saved)
    {
      hide Published, FindLayout, TransferTerminalWorkspace;
      var layouts := workspaceState.terminalWorkspaces;
      var source := FindLayout(layouts, workspaceId);
      if source == |layouts| || layouts[source].windowId == "main" || !CanTransfer(AsView(), workspaceId) {
        return false;
      }
      var candidate := workspaceState;
      var destination := FindLayout(layouts, layouts[source].returnWorkspaceId);
      if |layouts[source].restoreIntents| == 1 && destination < |layouts| && layouts[destination].id != layouts[source].id
         && |layouts[destination].restoreIntents| < MAXIMUM_PANES {
        var merge := Transfer(MergeWorkspace, layouts[source].id, "", layouts[destination].id, layouts[destination].activePaneId,
                              splitNodeId, Horizontal, true);
        var merged := TransferTerminalWorkspace(candidate, merge);
        if !CanTransfer(AsView(), layouts[destination].id) || merged.None? {
          return false;
        }
        candidate := merged.value;
      } else {
        var layout := layouts[source].(windowId := "main", returnWorkspaceId := "");
        candidate := candidate.(terminalWorkspaces := layouts[source := layout], activeTerminalWorkspaceId := layout.id);
      }
      if !saved {
        return false;
      }
      workspaceState := candidate;
      PublishedAgain(old(AsView()), workspaceState);
      PublishTerminalOwnership();
      return true;
    }

    method InsertTerminalWorkspace(workspaceId: string, targetIndex: int, windowId: string, saved: bool) returns (ok: bool)
      modifies this
      ensures (AsView(), ok) == InsertTab(old(AsView()), workspaceId, targetIndex, windowId, saved)
    {
      hide Published, FindLayout, InWindow;
      var layouts := workspaceState.terminalWorkspaces;
      if !CanTransfer(AsView(), workspaceId) || targetIndex < 0 {
        return false;
      }
      if windowId != "main" && InWindow(layouts, windowId) == [] {
        return false;
      }
      var found := FindLayout(layouts, workspaceId);
      if found == |layouts| {
        return false;
      }
      var moved := layouts[found];
      var rest := RemoveAt(layouts, found);
      if moved.windowId != windowId {
        moved := moved.(returnWorkspaceId := "");
      }
      moved := moved.(windowId := windowId);
      var destination := FindInsertion(rest, windowId, targetIndex);
      var candidate := InsertAt(rest, destination, moved);
      if !saved {
        return false;
      }
      workspaceState := workspaceState.(terminalWorkspaces := candidate, activeTerminalWorkspaceId := workspaceId);
      PublishedAgain(old(AsView()), workspaceState);
      PublishTerminalOwnership();
      return true;
    }

    /** The destination search: counts the window's tabs up to the target index. */
    static method FindInsertion(rest: seq<Layout>, windowId: string, targetIndex: nat) returns (destination: nat)
      ensures destination == NthInWindow(rest, windowId, targetIndex)
    {
      destination := |rest|;
      var index := 0;
      assert rest[0..] == rest;
      for k := 0 to |rest|
        invariant 0 <= index <= targetIndex && destination == |rest|
        invariant k + NthInWindow(rest[k..], windowId, targetIndex - index) == NthInWindow(rest, windowId, targetIndex)
      {
        assert rest[k..][1..] == rest[k + 1..];
        if rest[k].windowId == windowId {
          if index == targetIndex {
            destination := k;
            return;
          }
          index := index + 1;
        }
      }
    }

    method ActivateTerminalPane(paneId: string) returns (ok: bool)
      modifies this
      ensures (AsView(), ok) == ActivatePane(old(AsView()), paneId)
    {
      var session := FindSessionForPane(sessions, paneId);
      if session == |sessions| {
        return false;
      }
      var layouts := workspaceState.terminalWorkspaces;
      var workspace := FindLayout(layouts, sessions[session].workspaceId);
      if workspace == |layouts| {
        return false;
      }
      activeTabId := sessions[session].workspaceId;
      focusedTabId := sessions[session].id;
      workspaceState := workspaceState.(terminalWorkspaces := layouts[workspace := layouts[workspace].(activePaneId := paneId)]);
      workspaceState := workspaceState.(activeTerminalWorkspaceId := activeTabId);
      return true;
    }

    method ApplyTerminalTransfer(transfer: Transfer, saved: bool) returns (ok: bool)
      modifies this
      ensures (AsView(), ok) == ApplyPaneTransfer(old(AsView()), transfer, saved)
    {
      hide Published, ActivatePane, TransferTerminalWorkspace;
      if !CanTransfer(AsView(), transfer.sourceWorkspaceId) || !CanTransfer(AsView(), transfer.targetWorkspaceId) {
        return false;
      }
      var candidate := TransferTerminalWorkspace(workspaceState, transfer);
      if candidate.None? {
        return false;
      }
      if candidate.value == workspaceState {
        ok := ActivateTerminalPane(transfer.sourcePaneId);
        return;
      }
      if !saved {
        return false;
      }
      workspaceState := candidate.value;
      PublishedAgain(old(AsView()), workspaceState);
      PublishTerminalOwnership();
      return true;
    }

    method DetachTerminalPane(paneId: string, newId: string, newWindowId: string, saved: bool) returns (workspaceId: string)
      modifies this
      ensures (AsView(), workspaceId) == DetachPane(old(AsView()), paneId, newId, newWindowId, saved)
    {
      hide Published, FindLayout, FindSessionForPane, TransferTerminalWorkspace, DetachTab;
      var session := FindSessionForPane(sessions, paneId);
      if session == |sessions| || !CanTransfer(AsView(), sessions[session].workspaceId) {
        return "";
      }
      var layouts := workspaceState.terminalWorkspaces;
      var source := FindLayout(layouts, sessions[session].workspaceId);
      if source == |layouts| {
        return "";
      }
      if |layouts[source].restoreIntents| == 1 {
        var id := sessions[session].workspaceId;
        var detached := DetachTerminalWorkspace(id, newWindowId, saved);
        return if detached then id else "";
      }
      var extract := Transfer(ExtractPane, layouts[source].id, paneId, newId, "", "", Horizontal, true);
      var candidate := TransferTerminalWorkspace(workspaceState, extract);
      if candidate.None? || !saved {
        return "";
      }
      TransferPublishesValidStates(workspaceState, extract);
      workspaceState := InOwnWindow(candidate.value, newWindowId, layouts[source].id);
      PublishedAgain(old(AsView()), workspaceState);
      PublishTerminalOwnership();
      return newId;
    }

    method ToggleActiveTerminalTabPinned() returns (ok: bool)
      modifies this
      ensures (AsView(), ok) == TogglePinned(old(AsView()))
    {
      if activeTabId == "" || !HasLayout(workspaceState.terminalWorkspaces, activeTabId) {
        return false;
      }
      if activeTabId in pinnedTerminalWorkspaceIds {
        pinnedTerminalWorkspaceIds := pinnedTerminalWorkspaceIds - {activeTabId};
      } else {
        pinnedTerminalWorkspaceIds := pinnedTerminalWorkspaceIds + {activeTabId};
      }
      return true;
    }
  }

  /** Publishing does not depend on the state that is replaced. */
  lemma {:induction false} PublishedAgain(view: View, state: State)
    ensures Published(view.(workspace := state), state) == Published(view, state)
  {
  }

  lemma {:induction false} WriteBackNone(w: string)
    ensures InWindow([], w) == [] && WriteBack([], w, []) == []
  {
  }

  lemma {:induction false} WriteBackOne(layouts: seq<Layout>, k: nat, w: string, tabs: seq<Layout>)
    requires k < |layouts| && |tabs| == |InWindow(layouts[k..], w)|
    ensures var own := layouts[k].windowId == w;
      && (own ==> tabs != [])
      && |InWindow(layouts[k + 1..], w)| == |tabs| - (if own then 1 else 0)
      && WriteBack(layouts[k..], w, tabs)
           == [if own then tabs[0] else layouts[k]] + WriteBack(layouts[k + 1..], w, if own then tabs[1..] else tabs)
  {
    assert layouts[k..][1..] == layouts[k + 1..];
  }

  lemma {:induction false} InWindowMembers(layouts: seq<Layout>, w: string)
    ensures forall j :: 0 <= j < |InWindow(layouts, w)| ==> InWindow(layouts, w)[j] in layouts
  {
    if layouts != [] {
      InWindowMembers(layouts[1..], w);
    }
  }

  lemma {:induction false} InWindowUnique(layouts: seq<Layout>, w: string)
    requires UniqueLayoutIds(layouts)
    ensures UniqueLayoutIds(InWindow(layouts, w))
  {
    if layouts != [] {
      InWindowUnique(layouts[1..], w);
      InWindowMembers(layouts[1..], w);
      assert forall j :: 0 <= j < |layouts[1..]| ==> layouts[1..][j].id != layouts[0].id;
    }
  }

  /** Searching the collected tabs by id finds the tab's rank. */
  lemma {:induction false} PositionIsRank(layouts: seq<Layout>, k: nat)
    requires k < |layouts| && UniqueLayoutIds(layouts)
    ensures FindLayout(InWindow(layouts, layouts[k].windowId), layouts[k].id) == RankOf(layouts, k)
    ensures RankOf(layouts, k) < |InWindow(layouts, layouts[k].windowId)|
  {
    var tabs := InWindow(layouts, layouts[k].windowId);
    RankInRange(layouts, k);
    InWindowUnique(layouts, layouts[k].windowId);
    var j := FindLayout(tabs, layouts[k].id);
    assert tabs[RankOf(layouts, k)].id == layouts[k].id;
  }

  // ----- publishing makes the registry agree with the layouts -----

  predicate SamePanes(a: seq<Session>, b: seq<Session>) {
    |a| == |b| && forall i :: 0 <= i < |a| ==> a[i].paneId == b[i].paneId && a[i].id == b[i].id
  }

  predicate MentionedIn(nodes: seq<Node>, session: Session) {
    exists n :: 0 <= n < |nodes| && IsPaneOf(nodes[n], session)
  }

  /** Tab `k` is the one that has the session's pane. */
  predicate OnlyMention(layouts: seq<Layout>, k: nat, session: Session) {
    && k < |layouts| && MentionedIn(layouts[k].nodes, session)
    && forall j :: 0 <= j < |layouts| && MentionedIn(layouts[j].nodes, session) ==> j == k
  }

  /** Claiming touches exactly the session of the leaf. */
  lemma {:induction false} ClaimEffect(sessions: seq<Session>, node: Node, layoutId: string, i: nat)
    requires OneSessionPerPane(sessions) && i < |sessions|
    ensures SamePanes(Claim(sessions, node, layoutId), sessions)
    ensures Claim(sessions, node, layoutId)[i]
         == if IsPaneOf(node, sessions[i]) then sessions[i].(workspaceId := layoutId) else sessions[i]
  {
  }

  lemma {:induction false} ClaimLeavesEffect(sessions: seq<Session>, nodes: seq<Node>, layoutId: string, i: nat)
    requires OneSessionPerPane(sessions) && i < |sessions|
    ensures SamePanes(ClaimLeaves(sessions, nodes, layoutId), sessions)
    ensures ClaimLeaves(sessions, nodes, layoutId)[i]
         == if MentionedIn(nodes, sessions[i]) then sessions[i].(workspaceId := layoutId) else sessions[i]
    decreases |nodes|
  {
    if nodes != [] {
      var claimed := Claim(sessions, nodes[0], layoutId);
      ClaimEffect(sessions, nodes[0], layoutId, i);
      hide Claim;
      ClaimLeavesEffect(claimed, nodes[1..], layoutId, i);
      if MentionedIn(nodes, sessions[i]) {
        var n :| 0 <= n < |nodes| && IsPaneOf(nodes[n], sessions[i]);
        assert n > 0 ==> IsPaneOf(nodes[1..][n - 1], claimed[i]);
      }
      if MentionedIn(nodes[1..], claimed[i]) {
        var n :| 0 <= n < |nodes[1..]| && IsPaneOf(nodes[1..][n], claimed[i]);
        assert IsPaneOf(nodes[n + 1], sessions[i]);
      }
    }
  }

  lemma {:induction false} ClaimAllNone(sessions: seq<Session>)
    ensures ClaimAll(sessions, []) == sessions
  {
  }

  lemma {:induction false} ClaimAllOne(sessions: seq<Session>, layouts: seq<Layout>, k: nat)
    requires k < |layouts|
    ensures ClaimAll(sessions, layouts[k..]) == ClaimAll(ClaimLeaves(sessions, layouts[k].nodes, layouts[k].id), layouts[k + 1..])
  {
    assert layouts[k..][1..] == layouts[k + 1..];
  }

  /** After publishing, a session is registered under the only tab that has its pane. */
  lemma {:induction false} ClaimAllEffect(sessions: seq<Session>, layouts: seq<Layout>, i: nat)
    requires OneSessionPerPane(sessions) && i < |sessions|
    ensures SamePanes(ClaimAll(sessions, layouts), sessions)
    ensures (forall k :: 0 <= k < |layouts| ==> !MentionedIn(layouts[k].nodes, sessions[i])) ==>
      ClaimAll(sessions, layouts)[i] == sessions[i]
    ensures forall k :: 0 <= k < |layouts| && OnlyMention(layouts, k, sessions[i]) ==>
      ClaimAll(sessions, layouts)[i].workspaceId == layouts[k].id
    decreases |layouts|
  {
    hide ClaimLeaves, ClaimAll;
    if layouts == [] {
      ClaimAllNone(sessions);
    } else {
      var claimed := ClaimLeaves(sessions, layouts[0].nodes, layouts[0].id);
      ClaimLeavesEffect(sessions, layouts[0].nodes, layouts[0].id, i);
      ClaimAllOne(sessions, layouts, 0);
      assert layouts[0..] == layouts;
      ClaimAllEffect(claimed, layouts[1..], i);
      forall nodes
        ensures MentionedIn(nodes, claimed[i]) <==> MentionedIn(nodes, sessions[i])
      {
        assert forall n :: 0 <= n < |nodes| ==> (IsPaneOf(nodes[n], claimed[i]) <==> IsPaneOf(nodes[n], sessions[i]));
      }
      forall k | 0 <= k < |layouts| && OnlyMention(layouts, k, sessions[i])
        ensures ClaimAll(sessions, layouts)[i].workspaceId == layouts[k].id
      {
        if k == 0 {
          assert forall j :: 0 <= j < |layouts[1..]| ==> layouts[1..][j] == layouts[j + 1];
        } else {
          assert OnlyMention(layouts[1..], k - 1, claimed[i]);
        }
      }
    }
  }

  lemma {:induction false} ClaimAllOwns(sessions: seq<Session>, layouts: seq<Layout>)
    requires OneSessionPerPane(sessions) && PanesApart(layouts)
    ensures SamePanes(ClaimAll(sessions, layouts), sessions)
    ensures Owned(layouts, ClaimAll(sessions, layouts))
  {
    var claimed := ClaimAll(sessions, layouts);
    assert SamePanes(claimed, sessions) by {
      if sessions != [] {
        ClaimAllEffect(sessions, layouts, 0);
      }
    }
    forall i, k, n | 0 <= i < |claimed| && 0 <= k < |layouts| && 0 <= n < |layouts[k].nodes| && IsPaneOf(layouts[k].nodes[n], claimed[i])
      ensures claimed[i].workspaceId == layouts[k].id
    {
      assert IsPaneOf(layouts[k].nodes[n], sessions[i]);
      assert MentionedIn(layouts[k].nodes, sessions[i]);
      forall j | 0 <= j < |layouts| && MentionedIn(layouts[j].nodes, sessions[i])
        ensures j == k
      {
        var m :| 0 <= m < |layouts[j].nodes| && IsPaneOf(layouts[j].nodes[m], sessions[i]);
        PaneDeterminesTab(layouts, j, m, k, n);
      }
      assert OnlyMention(layouts, k, sessions[i]);
      ClaimAllEffect(sessions, layouts, i);
    }
  }

  lemma {:induction false} PublishedIsCoherent(view: View, state: State)
    requires UniqueLayoutIds(state.terminalWorkspaces) && PanesApart(state.terminalWorkspaces) && OneSessionPerPane(view.sessions)
    requires ActiveExists(state.terminalWorkspaces, state.activeTerminalWorkspaceId)
    ensures Coherent(Published(view, state))
  {
    hide PanesApart, FindLayout;
    ClaimAllOwns(view.sessions, state.terminalWorkspaces);
  }

  /** Where the registry already agrees, publishing leaves it alone. */
  lemma {:induction false} ClaimAllIdle(sessions: seq<Session>, layouts: seq<Layout>)
    requires OneSessionPerPane(sessions) && Owned(layouts, sessions)
    ensures ClaimAll(sessions, layouts) == sessions
    decreases |layouts|
  {
    if layouts != [] {
      var claimed := ClaimLeaves(sessions, layouts[0].nodes, layouts[0].id);
      forall i | 0 <= i < |sessions|
        ensures claimed[i] == sessions[i]
      {
        ClaimLeavesEffect(sessions, layouts[0].nodes, layouts[0].id, i);
        hide ClaimLeaves;
      }
      assert claimed == sessions;
      hide ClaimLeaves;
      assert Owned(layouts[1..], sessions) by {
        forall i, k, n | 0 <= i < |sessions| && 0 <= k < |layouts[1..]| && 0 <= n < |layouts[1..][k].nodes|
          && IsPaneOf(layouts[1..][k].nodes[n], sessions[i])
          ensures sessions[i].workspaceId == layouts[1..][k].id
        {
          assert layouts[1..][k] == layouts[k + 1];
        }
      }
      ClaimAllIdle(sessions, layouts[1..]);
    }
  }

  // ----- what the edits of the list keep -----

  /** Same tabs up to window, return address and focused pane. */
  predicate SameContents(a: Layout, b: Layout) {
    a.id == b.id && a.nodes == b.nodes && a.restoreIntents == b.restoreIntents
  }

  lemma {:induction false} UpdateKeepsApart(layouts: seq<Layout>, k: nat, layout: Layout)
    requires k < |layouts| && SameContents(layouts[k], layout)
    requires UniqueLayoutIds(layouts) && PanesApart(layouts)
    ensures UniqueLayoutIds(layouts[k := layout]) && PanesApart(layouts[k := layout])
  {
    var updated := layouts[k := layout];
    forall item: Item
      ensures AllHeld(updated, item) == AllHeld(layouts, item)
    {
      AllHeldUpdate(layouts, k, layout, item);
    }
    hide AllHeld;
    forall i, j | 0 <= i < j < |updated|
      ensures updated[i].id != updated[j].id
    {
      assert updated[i].id == layouts[i].id && updated[j].id == layouts[j].id;
    }
  }

  lemma {:induction false} UpdateKeepsOwned(layouts: seq<Layout>, k: nat, layout: Layout, sessions: seq<Session>)
    requires k < |layouts| && SameContents(layouts[k], layout) && Owned(layouts, sessions)
    ensures Owned(layouts[k := layout], sessions)
  {
    var updated := layouts[k := layout];
    forall i, j, n | 0 <= i < |sessions| && 0 <= j < |updated| && 0 <= n < |updated[j].nodes| && IsPaneOf(updated[j].nodes[n], sessions[i])
      ensures sessions[i].workspaceId == updated[j].id
    {
      assert updated[j].nodes[n] == layouts[j].nodes[n] && updated[j].id == layouts[j].id;
    }
  }

  lemma {:induction false} ReinsertKeepsApart(layouts: seq<Layout>, k: nat, moved: Layout, t: nat)
    requires k < |layouts| && SameContents(layouts[k], moved)
    requires UniqueLayoutIds(layouts) && PanesApart(layouts)
    ensures UniqueLayoutIds(Reinserted(layouts, k, moved, t)) && PanesApart(Reinserted(layouts, k, moved, t))
  {
    var rest := RemoveAt(layouts, k);
    var at := NthInWindow(rest, moved.windowId, t);
    forall i | 0 <= i < |rest|
      ensures rest[i].id != moved.id
    {
      ElementBeforeRemoval(layouts, k, i);
    }
    forall i, j | 0 <= i < j < |rest|
      ensures rest[i].id != rest[j].id
    {
      ElementBeforeRemoval(layouts, k, i);
      ElementBeforeRemoval(layouts, k, j);
    }
    forall item: Item
      ensures AllHeld(InsertAt(rest, at, moved), item) == AllHeld(layouts, item)
    {
      AllHeldAround(layouts[..k], layouts[k], layouts[k + 1..], item);
      assert layouts[..k] + [layouts[k]] + layouts[k + 1..] == layouts;
      AllHeldAround(rest[..at], moved, rest[at..], item);
      assert rest[..at] + rest[at..] == rest;
    }
    hide AllHeld;
    assert UniqueLayoutIds(InsertAt(rest, at, moved));
  }

  lemma {:induction false} AllHeldAround(a: seq<Layout>, layout: Layout, b: seq<Layout>, item: Item)
    ensures AllHeld(a + [layout] + b, item) == AllHeld(a + b, item) + Held(layout, item)
  {
    hide Held;
    AllHeldAppend(a + [layout], b, item);
    AllHeldAppend(a, [layout], item);
    AllHeldAppend(a, b, item);
    assert AllHeld([layout][1..], item) == 0;
  }

  lemma {:induction false} AllHeldPermuted(a: seq<Layout>, b: seq<Layout>, item: Item)
    requires multiset(a) == multiset(b)
    ensures AllHeld(a, item) == AllHeld(b, item)
  {
    hide Held;
    if a == [] {
      assert multiset(b) == multiset{};
    } else {
      HeadMultiset(a);
      assert a[0] in multiset(b);
      var k :| 0 <= k < |b| && b[k] == a[0];
      RemoveMultiset(b, k);
      AllHeldAround(b[..k], b[k], b[k + 1..], item);
      assert b[..k] + [b[k]] + b[k + 1..] == b;
      CancelMultiset(multiset(a[1..]), multiset(RemoveAt(b, k)), multiset{a[0]});
      AllHeldPermuted(a[1..], RemoveAt(b, k), item);
    }
  }

  lemma {:induction false} UniquePermuted(a: seq<Layout>, b: seq<Layout>)
    requires multiset(a) == multiset(b) && UniqueLayoutIds(a)
    ensures UniqueLayoutIds(b)
  {
    forall i, j | 0 <= i < j < |b|
      ensures b[i].id != b[j].id
    {
      RemoveMultiset(b, j);
      ElementAfterRemoval(b, j, i);
      var rest := RemoveAt(b, j);
      assert b[i] in multiset(rest) && b[j] in multiset(a) && b[i] in multiset(a);
      if b[i] == b[j] {
        assert multiset(b)[b[i]] >= 2;
        AtMostOnce(a, b[i]);
      } else {
        var m :| 0 <= m < |a| && a[m] == b[i];
        var n :| 0 <= n < |a| && a[n] == b[j];
      }
    }
  }

  lemma {:induction false} AtMostOnce(a: seq<Layout>, layout: Layout)
    requires UniqueLayoutIds(a)
    ensures multiset(a)[layout] <= 1
  {
    if a != [] {
      HeadMultiset(a);
      assert forall k :: 0 <= k < |a[1..]| ==> a[1..][k].id != a[0].id;
      AtMostOnce(a[1..], layout);
      assert a[0] !in a[1..];
    }
  }

  lemma {:induction false} PermutedKeepsCoherent(view: View, layouts: seq<Layout>)
    requires Coherent(view) && multiset(layouts) == multiset(view.Layouts())
    ensures Coherent(view.(workspace := view.workspace.(terminalWorkspaces := layouts)))
  {
    var before := view.Layouts();
    forall item: Item
      ensures AllHeld(layouts, item) == AllHeld(before, item)
    {
      AllHeldPermuted(layouts, before, item);
    }
    UniquePermuted(before, layouts);
    hide AllHeld, UniqueLayoutIds;
    forall i, k, n | 0 <= i < |view.sessions| && 0 <= k < |layouts| && 0 <= n < |layouts[k].nodes|
      && IsPaneOf(layouts[k].nodes[n], view.sessions[i])
      ensures view.sessions[i].workspaceId == layouts[k].id
    {
      assert layouts[k] in multiset(before);
      var j :| 0 <= j < |before| && before[j] == layouts[k];
    }
    forall id | HasLayout(before, id)
      ensures HasLayout(layouts, id)
    {
      var j := FindLayout(before, id);
      assert before[j] in multiset(layouts);
      var k :| 0 <= k < |layouts| && layouts[k] == before[j];
    }
    SameTabFound(before, layouts, view.activeTabId);
  }

  /** After a permutation the same tab is found under an id. */
  lemma {:induction false} SameTabFound(before: seq<Layout>, after: seq<Layout>, id: string)
    requires multiset(before) == multiset(after) && UniqueLayoutIds(after)
    ensures HasLayout(before, id) <==> HasLayout(after, id)
    ensures HasLayout(before, id) ==> before[FindLayout(before, id)] == after[FindLayout(after, id)]
    ensures before == [] <==> after == []
  {
    var j, k := FindLayout(before, id), FindLayout(after, id);
    assert before == [] ==> |multiset(after)| == 0;
    assert after == [] ==> |multiset(before)| == 0;
    if j < |before| {
      assert before[j] in multiset(after);
      var m :| 0 <= m < |after| && after[m] == before[j];
    }
    if k < |after| {
      assert after[k] in multiset(before);
      var m :| 0 <= m < |before| && before[m] == after[k];
    }
  }

  // ----- every run -----

  datatype Operation =
    | Move(id: string, targetIndex: int, saved: bool)
    | Detach(workspaceId: string, newWindowId: string, saved: bool)
    | Reattach(workspaceId: string, splitNodeId: string, saved: bool)
    | Insert(workspaceId: string, targetIndex: int, windowId: string, saved: bool)
    | Activate(paneId: string)
    | TransferPanes(transfer: Transfer, saved: bool)
    | DetachOnePane(paneId: string, newId: string, newWindowId: string, saved: bool)
    | Toggle
    | Surroundings(shutdownStarted: bool, hostKeyTabId: string, preedit: set<string>)

  function Step(view: View, operation: Operation): View {
    match operation
    case Move(id, targetIndex, saved) => MoveTab(view, id, targetIndex, saved).0
    case Detach(id, newWindowId, saved) => DetachTab(view, id, newWindowId, saved).0
    case Reattach(id, splitNodeId, saved) => ReattachTab(view, id, splitNodeId, saved).0
    case Insert(id, targetIndex, windowId, saved) => InsertTab(view, id, targetIndex, windowId, saved).0
    case Activate(paneId) => ActivatePane(view, paneId).0
    case TransferPanes(transfer, saved) => ApplyPaneTransfer(view, transfer, saved).0
    case DetachOnePane(paneId, newId, newWindowId, saved) => DetachPane(view, paneId, newId, newWindowId, saved).0
    case Toggle => TogglePinned(view).0
    case Surroundings(shutdown, hostKey, preedit) => view.(shutdownStarted := shutdown, hostKeyTabId := hostKey, preedit := preedit)
  }

  lemma {:induction false} MoveKeepsCoherent(view: View, id: string, targetIndex: int, saved: bool)
    requires Coherent(view)
    ensures Coherent(MoveTab(view, id, targetIndex, saved).0)
  {
    var layouts := view.Layouts();
    var k := FindLayout(layouts, WorkspaceIdFor(view, id));
    if k < |layouts| && 0 <= targetIndex < |InWindow(layouts, layouts[k].windowId)| {
      hide MovedWithin, Coherent, InWindow;
      MovedWithinPlaces(layouts, k, targetIndex);
      PermutedKeepsCoherent(view, MovedWithin(layouts, k, targetIndex));
    }
  }

  lemma {:induction false} UpdatePublishedIsCoherent(view: View, state: State, k: nat, layout: Layout)
    requires Coherent(view) && k < |view.Layouts()| && SameContents(view.Layouts()[k], layout)
    requires state.terminalWorkspaces == view.Layouts()[k := layout]
    requires HasLayout(view.Layouts(), state.activeTerminalWorkspaceId)
    ensures Coherent(Published(view, state))
  {
    hide Published, PanesApart;
    UpdateKeepsApart(view.Layouts(), k, layout);
    FindAfterUpdate(view.Layouts(), k, layout, state.activeTerminalWorkspaceId);
    PublishedIsCoherent(view, state);
  }

  lemma {:induction false} TransferPublishedIsCoherent(view: View, transfer: Transfer)
    requires Coherent(view) && TransferTerminalWorkspace(view.workspace, transfer).Some?
    ensures var after := TransferTerminalWorkspace(view.workspace, transfer).value;
      && Coherent(Published(view, after))
      && UniqueLayoutIds(after.terminalWorkspaces) && PanesApart(after.terminalWorkspaces)
  {
    var after := TransferTerminalWorkspace(view.workspace, transfer).value;
    TransferPublishesValidStates(view.workspace, transfer);
    TransferKeepsPanesApart(view.workspace, transfer);
    hide TransferTerminalWorkspace, PanesApart, Published;
    assert UniqueLayoutIds(after.terminalWorkspaces);
    PublishedIsCoherent(view, after);
  }

  lemma {:induction false} DetachKeepsCoherent(view: View, workspaceId: string, newWindowId: string, saved: bool)
    requires Coherent(view)
    ensures Coherent(DetachTab(view, workspaceId, newWindowId, saved).0)
  {
    var layouts := view.Layouts();
    var k := FindLayout(layouts, workspaceId);
    if k < |layouts| {
      var detached := layouts[k].(windowId := newWindowId, returnWorkspaceId := "");
      assert HasLayout(layouts, view.workspace.activeTerminalWorkspaceId);
      hide Coherent, Published;
      UpdatePublishedIsCoherent(view, view.workspace.(terminalWorkspaces := layouts[k := detached]), k, detached);
    }
  }

  lemma {:induction false} ReattachKeepsCoherent(view: View, workspaceId: string, splitNodeId: string, saved: bool)
    requires Coherent(view)
    ensures Coherent(ReattachTab(view, workspaceId, splitNodeId, saved).0)
  {
    var layouts := view.Layouts();
    var k := FindLayout(layouts, workspaceId);
    hide Coherent, Published, TransferTerminalWorkspace;
    if k == |layouts| {
      return;
    }
    var attached := layouts[k].(windowId := "main", returnWorkspaceId := "");
    var state := view.workspace.(terminalWorkspaces := layouts[k := attached], activeTerminalWorkspaceId := attached.id);
    UpdatePublishedIsCoherent(view, state, k, attached);
    var d := FindLayout(layouts, layouts[k].returnWorkspaceId);
    if d < |layouts| {
      var merge := Transfer(MergeWorkspace, layouts[k].id, "", layouts[d].id, layouts[d].activePaneId, splitNodeId, Horizontal, true);
      if TransferTerminalWorkspace(view.workspace, merge).Some? {
        TransferPublishedIsCoherent(view, merge);
      }
    }
  }

  lemma {:induction false} InsertKeepsCoherent(view: View, workspaceId: string, targetIndex: int, windowId: string, saved: bool)
    requires Coherent(view)
    ensures Coherent(InsertTab(view, workspaceId, targetIndex, windowId, saved).0)
  {
    var layouts := view.Layouts();
    var k := FindLayout(layouts, workspaceId);
    if k < |layouts| && targetIndex >= 0 {
      var moved := Relocated(layouts[k], windowId);
      ReinsertKeepsApart(layouts, k, moved, targetIndex);
      var state := view.workspace.(terminalWorkspaces := Reinserted(layouts, k, moved, targetIndex), activeTerminalWorkspaceId := workspaceId);
      MovedIsThere(layouts, k, moved, targetIndex);
      hide PanesApart, Published, Reinserted;
      PublishedIsCoherent(view, state);
    }
  }

  lemma {:induction false} MovedIsThere(layouts: seq<Layout>, k: nat, moved: Layout, t: nat)
    requires k < |layouts|
    ensures HasLayout(Reinserted(layouts, k, moved, t), moved.id)
  {
    var rest := RemoveAt(layouts, k);
    var at := NthInWindow(rest, moved.windowId, t);
    assert InsertAt(rest, at, moved)[at] == moved;
  }

  lemma {:induction false} ActivateKeepsCoherent(view: View, paneId: string)
    requires Coherent(view)
    ensures Coherent(ActivatePane(view, paneId).0)
  {
    var layouts := view.Layouts();
    var s := FindSessionForPane(view.sessions, paneId);
    if s < |view.sessions| {
      var k := FindLayout(layouts, view.sessions[s].workspaceId);
      if k < |layouts| {
        var focused := layouts[k].(activePaneId := paneId);
        UpdateKeepsApart(layouts, k, focused);
        UpdateKeepsOwned(layouts, k, focused, view.sessions);
        hide PanesApart, Owned;
        forall id | HasLayout(layouts, id)
          ensures HasLayout(layouts[k := focused], id)
        {
          var j := FindLayout(layouts, id);
          assert layouts[k := focused][j].id == id;
        }
        FindAfterUpdate(layouts, k, focused, focused.id);
      }
    }
  }

  lemma {:induction false} TransferKeepsCoherent(view: View, transfer: Transfer, saved: bool)
    requires Coherent(view)
    ensures Coherent(ApplyPaneTransfer(view, transfer, saved).0)
  {
    hide Coherent, Published, TransferTerminalWorkspace, ActivatePane;
    ActivateKeepsCoherent(view, transfer.sourcePaneId);
    if TransferTerminalWorkspace(view.workspace, transfer).Some? {
      TransferPublishedIsCoherent(view, transfer);
    }
  }

  lemma {:induction false} DetachPaneKeepsCoherent(view: View, paneId: string, newId: string, newWindowId: string, saved: bool)
    requires Coherent(view)
    ensures Coherent(DetachPane(view, paneId, newId, newWindowId, saved).0)
  {
    hide TransferTerminalWorkspace, Published, DetachTab, Coherent, InOwnWindow, FindLayout, FindSessionForPane;
    var s := FindSessionForPane(view.sessions, paneId);
    if s < |view.sessions| {
      var layouts, workspaceId := view.Layouts(), view.sessions[s].workspaceId;
      DetachKeepsCoherent(view, workspaceId, newWindowId, saved);
      var k := FindLayout(layouts, workspaceId);
      if k < |layouts| {
        var extract := Transfer(ExtractPane, layouts[k].id, paneId, newId, "", "", Horizontal, true);
        if TransferTerminalWorkspace(view.workspace, extract).Some? {
          DetachedPaneIsCoherent(view, extract, newWindowId, layouts[k].id);
        }
      }
    }
  }

  lemma {:induction false} DetachedPaneIsCoherent(view: View, extract: Transfer, newWindowId: string, returnId: string)
    requires Coherent(view) && TransferTerminalWorkspace(view.workspace, extract).Some?
    ensures var after := TransferTerminalWorkspace(view.workspace, extract).value;
      after.terminalWorkspaces != [] && Coherent(Published(view, InOwnWindow(after, newWindowId, returnId)))
  {
    assert OneSessionPerPane(view.sessions);
    hide TransferTerminalWorkspace, Published, PanesApart, UniqueLayoutIds, Coherent, InOwnWindow, FindLayout, ValidState, OneSessionPerPane;
    var after := TransferTerminalWorkspace(view.workspace, extract).value;
    TransferPublishesValidStates(view.workspace, extract);
    TransferPublishedIsCoherent(view, extract);
    OwnWindowKeepsApart(after, newWindowId, returnId);
    OwnWindowKeepsActive(after, newWindowId, returnId);
    PublishedIsCoherent(view, InOwnWindow(after, newWindowId, returnId));
  }

  lemma {:induction false} OwnWindowKeepsActive(state: State, newWindowId: string, returnId: string)
    requires state.terminalWorkspaces != [] && HasLayout(state.terminalWorkspaces, state.activeTerminalWorkspaceId)
    ensures var own := InOwnWindow(state, newWindowId, returnId);
      HasLayout(own.terminalWorkspaces, own.activeTerminalWorkspaceId)
  {
    var last := |state.terminalWorkspaces| - 1;
    FindAfterUpdate(state.terminalWorkspaces, last,
                    state.terminalWorkspaces[last].(windowId := newWindowId, returnWorkspaceId := returnId), state.activeTerminalWorkspaceId);
  }

  lemma {:induction false} OwnWindowKeepsApart(state: State, newWindowId: string, returnId: string)
    requires state.terminalWorkspaces != [] && UniqueLayoutIds(state.terminalWorkspaces) && PanesApart(state.terminalWorkspaces)
    ensures UniqueLayoutIds(InOwnWindow(state, newWindowId, returnId).terminalWorkspaces)
    ensures PanesApart(InOwnWindow(state, newWindowId, returnId).terminalWorkspaces)
  {
    hide PanesApart, UniqueLayoutIds;
    var last := |state.terminalWorkspaces| - 1;
    UpdateKeepsApart(state.terminalWorkspaces, last,
                     state.terminalWorkspaces[last].(windowId := newWindowId, returnWorkspaceId := returnId));
  }

  lemma {:induction false} StepKeepsCoherent(view: View, operation: Operation)
    requires Coherent(view)
    ensures Coherent(Step(view, operation))
  {
    hide MoveTab, DetachTab, ReattachTab, InsertTab, ActivatePane, ApplyPaneTransfer, DetachPane, PanesApart;
    match operation {
      case Move(id, targetIndex, saved) => MoveKeepsCoherent(view, id, targetIndex, saved);
      case Detach(id, newWindowId, saved) => DetachKeepsCoherent(view, id, newWindowId, saved);
      case Reattach(id, splitNodeId, saved) => ReattachKeepsCoherent(view, id, splitNodeId, saved);
      case Insert(id, targetIndex, windowId, saved) => InsertKeepsCoherent(view, id, targetIndex, windowId, saved);
      case Activate(paneId) => ActivateKeepsCoherent(view, paneId);
      case TransferPanes(transfer, saved) => TransferKeepsCoherent(view, transfer, saved);
      case DetachOnePane(paneId, newId, newWindowId, saved) => DetachPaneKeepsCoherent(view, paneId, newId, newWindowId, saved);
      case Toggle =>
      case Surroundings(_, _, _) =>
    }
  }

  function Run(view: View, operations: seq<Operation>): View
    decreases |operations|
  {
    if operations == [] then view else Run(Step(view, operations[0]), operations[1..])
  }

  /**
   In every run of the operations, with whatever outcomes of the saves, the registry of sessions,
   the pinned tabs, the active tab and the focused session agree with the layouts, and no pane is
   in two tabs.
   */
  lemma {:induction false} RunKeepsCoherent(view: View, operations: seq<Operation>)
    requires Coherent(view)
    ensures Coherent(Run(view, operations))
    decreases |operations|
  {
    if operations != [] {
      hide Coherent, Step;
      StepKeepsCoherent(view, operations[0]);
      RunKeepsCoherent(Step(view, operations[0]), operations[1..]);
    }
  }

  // ----- tab order as the user sees it -----

  /**
   Dragging a tab inside its window and inserting it there agree on the tabs of every window, for
   every index in range, once both are saved.
   */
  lemma {:induction false} MoveAndInsertAgree(view: View, id: string, targetIndex: nat, w: string)
    requires CanTransfer(view, id) && HasLayout(view.Layouts(), id)
    requires var k := FindLayout(view.Layouts(), id);
      targetIndex < |InWindow(view.Layouts(), view.Layouts()[k].windowId)|
    ensures var windowId := view.Layouts()[FindLayout(view.Layouts(), id)].windowId;
      var (dragged, moved) := MoveTab(view, id, targetIndex, true);
      var (placed, inserted) := InsertTab(view, id, targetIndex, windowId, true);
      moved && inserted && InWindow(dragged.Layouts(), w) == InWindow(placed.Layouts(), w)
  {
    var layouts := view.Layouts();
    var k := FindLayout(layouts, id);
    var windowId := layouts[k].windowId;
    assert Relocated(layouts[k], windowId) == layouts[k];
    RankInRange(layouts, k);
    DragAndInsertAgree(layouts, k, targetIndex, w);
    if targetIndex == RankOf(layouts, k) {
      MoveItemIdle(InWindow(layouts, windowId), targetIndex);
      WriteBackSame(layouts, windowId);
    }
    hide FindLayout, CanTransfer, MovedWithin, Reinserted, InWindow;
  }

  lemma {:induction false} MoveItemIdle<T>(s: seq<T>, k: nat)
    requires k < |s|
    ensures MoveItem(s, k, k) == s
  {
    assert s == s[..k] + [s[k]] + s[k + 1..];
  }

  /** A window id that no tab has yet. */
  predicate FreshWindow(layouts: seq<Layout>, windowId: string) {
    windowId != "main" && InWindow(layouts, windowId) == []
  }

  /**
   Detaching a tab of the main window gives it a window of its own, and reattaching it then
   restores the tab order of every window.  What remains is that the tab is the active one, its
   active pane has the focus, and its return address is cleared.
   */
  lemma {:induction false} DetachThenReattach(view: View, id: string, newWindowId: string, splitNodeId: string, w: string)
    requires Coherent(view) && CanTransfer(view, id) && HasLayout(view.Layouts(), id) && !HasLayout(view.Layouts(), "")
    requires view.Layouts()[FindLayout(view.Layouts(), id)].windowId == "main"
    requires FreshWindow(view.Layouts(), newWindowId)
    ensures var k := FindLayout(view.Layouts(), id);
      var (out, detached) := DetachTab(view, id, newWindowId, true);
      var (back, reattached) := ReattachTab(out, id, splitNodeId, true);
      && detached && reattached
      && TabIds(InWindow(out.Layouts(), newWindowId)) == [id]
      && back.Layouts() == view.Layouts()[k := view.Layouts()[k].(returnWorkspaceId := "")]
      && back.sessions == view.sessions && back.pinned == view.pinned
      && TabIds(InWindow(back.Layouts(), w)) == TabIds(InWindow(view.Layouts(), w))
      && back == view.(workspace := view.workspace.(terminalWorkspaces := back.Layouts(), activeTerminalWorkspaceId := id),
                       activeTabId := id, focusedTabId := FocusedIn(view.Layouts(), view.sessions, id))
  {
    var layouts := view.Layouts();
    var k := FindLayout(layouts, id);
    var detached := layouts[k].(windowId := newWindowId, returnWorkspaceId := "");
    var between := layouts[k := detached];
    var cleared := layouts[k].(returnWorkspaceId := "");
    var out := Published(view, view.workspace.(terminalWorkspaces := between));
    FindAfterUpdate(layouts, k, detached, id);
    FindAfterUpdate(layouts, k, detached, "");
    RepublishIdle(view, view.workspace.(terminalWorkspaces := between), k, detached);
    assert DetachTab(view, id, newWindowId, true) == (out, true);
    UpdateOrder(layouts, k, detached, newWindowId);
    assert between[k := cleared] == layouts[k := cleared];
    UpdateOrder(layouts, k, cleared, w);
    var state := view.workspace.(terminalWorkspaces := layouts[k := cleared], activeTerminalWorkspaceId := id);
    RepublishIdle(view, state, k, cleared);
    assert CanTransfer(out, id);
    hide Published, FindLayout, InWindow, Coherent;
    assert ReattachTab(out, id, splitNodeId, true) == (Published(out, state), true);
    PublishedSessions(view, out, state);
    FocusAfterUpdate(layouts, k, cleared, view.sessions, id);
    PublishedView(out, state);
    PublishedView(view, view.workspace.(terminalWorkspaces := between));
  }

  lemma {:induction false} FocusAfterUpdate(layouts: seq<Layout>, k: nat, layout: Layout, sessions: seq<Session>, id: string)
    requires k < |layouts| && layout.id == layouts[k].id && layout.activePaneId == layouts[k].activePaneId
    ensures FocusedIn(layouts[k := layout], sessions, id) == FocusedIn(layouts, sessions, id)
  {
    FindAfterUpdate(layouts, k, layout, id);
  }

  lemma {:induction false} PublishedView(view: View, state: State)
    ensures var after := Published(view, state);
      after == view.(workspace := state, sessions := after.sessions, pinned := after.pinned, activeTabId := state.activeTerminalWorkspaceId,
                     focusedTabId := FocusedIn(state.terminalWorkspaces, after.sessions, state.activeTerminalWorkspaceId))
  {
  }

  lemma {:induction false} FindAfterUpdate(layouts: seq<Layout>, k: nat, layout: Layout, id: string)
    requires k < |layouts| && layout.id == layouts[k].id
    ensures FindLayout(layouts[k := layout], id) == FindLayout(layouts, id)
  {
    var a, b := FindLayout(layouts[k := layout], id), FindLayout(layouts, id);
    assert forall i :: 0 <= i < |layouts| ==> layouts[k := layout][i].id == layouts[i].id;
  }

  /** Changing only a tab's window or return address leaves the registry and the pinned tabs alone. */
  lemma {:induction false} RepublishIdle(view: View, state: State, k: nat, layout: Layout)
    requires Coherent(view) && k < |view.Layouts()| && SameContents(view.Layouts()[k], layout)
    requires state.terminalWorkspaces == view.Layouts()[k := layout]
    ensures Published(view, state).sessions == view.sessions && Published(view, state).pinned == view.pinned
  {
    UpdateKeepsOwned(view.Layouts(), k, layout, view.sessions);
    ClaimAllIdle(view.sessions, state.terminalWorkspaces);
    hide ClaimAll, Owned, PanesApart, UniqueLayoutIds;
    forall id | id in view.pinned
      ensures HasLayout(state.terminalWorkspaces, id)
    {
      FindAfterUpdate(view.Layouts(), k, layout, id);
    }
  }

  /** Publishing again over an idle publication finds the same sessions and pinned tabs. */
  lemma {:induction false} PublishedSessions(view: View, out: View, state: State)
    requires out.sessions == view.sessions && out.pinned == view.pinned
    ensures Published(out, state).sessions == Published(view, state).sessions
    ensures Published(out, state).pinned == Published(view, state).pinned
    ensures Published(out, state).workspace == state
  {
  }

  /** The tabs of a window after one tab changed its fields but kept its id. */
  lemma {:induction false} UpdateOrder(layouts: seq<Layout>, k: nat, layout: Layout, w: string)
    requires k < |layouts| && layout.id == layouts[k].id
    ensures layout.windowId == layouts[k].windowId ==> TabIds(InWindow(layouts[k := layout], w)) == TabIds(InWindow(layouts, w))
    ensures InWindow(layouts, layout.windowId) == [] ==> TabIds(InWindow(layouts[k := layout], layout.windowId)) == [layout.id]
  {
    var updated := layouts[k := layout];
    InWindowAround(layouts, k, w);
    InWindowAround(updated, k, w);
    InWindowAround(layouts, k, layout.windowId);
    InWindowAround(updated, k, layout.windowId);
    assert updated[..k] == layouts[..k] && updated[k + 1..] == layouts[k + 1..];
    hide InWindow;
    if layout.windowId == layouts[k].windowId {
      var a, b := InWindow(layouts[..k], w), InWindow(layouts[k + 1..], w);
      if layout.windowId == w {
        forall i | 0 <= i < |a| + 1 + |b|
          ensures (a + [layout] + b)[i].id == (a + [layouts[k]] + b)[i].id
        {
        }
        SameIdsSameTabIds(a + [layout] + b, a + [layouts[k]] + b);
      }
    }
  }

  lemma {:induction false} SameIdsSameTabIds(a: seq<Layout>, b: seq<Layout>)
    requires |a| == |b| && forall i :: 0 <= i < |a| ==> a[i].id == b[i].id
    ensures TabIds(a) == TabIds(b)
  {
  }
}
