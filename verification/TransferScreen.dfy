/**
 What every tab shows after a transfer: its panes, the splits between them, the active pane, and
 its titles and window.
 */
module TransferScreen {
  import opened WorkspaceState
  import opened PaneTree
  import opened WorkspaceTransfer
  import opened PaneOrder
  import opened PaneClosing
  import opened PaneSwaps
  import opened TransferOrder
  import opened TabOrder
  import opened PaneScreen

  /** The tab with this id, if there is one. */
  ghost function TabIn(layouts: seq<Layout>, id: string): Option<Tab> {
    var k := FindLayout(layouts, id);
    if k < |layouts| && ValidLayout(layouts[k]) then Some(TabOf(layouts[k])) else None
  }

  /** The tab after one of its panes left, if it has another one. */
  function Departed(tab: Option<Tab>, pane: string): Option<Tab> {
    if tab.Some? then WithoutTerminal(tab.value, pane) else None
  }

  /** The tab under new letters. */
  function Swapped(tab: Tab, f: string -> string, active: string): Tab {
    tab.(screen := Relettered(tab.screen, f), active := active)
  }

  /** A pane on its own is named by its restore intent and belongs to the main window. */
  ghost function TabOfPane(layouts: seq<Layout>, workspaceId: string, pane: string): Option<Tab> {
    var s := FindLayout(layouts, workspaceId);
    if s == |layouts| || !ValidLayout(layouts[s]) || !IsLeaf(layouts[s].nodes, pane) then None
    else
      var intent := IntentOf(layouts[s], FindNode(layouts[s].nodes, pane));
      Some(Tab(Terminal(pane), pane, intent.title, intent.manualTitle, "main", ""))
  }

  /** What the request promises for tab `id`: None if there will be no such tab. */
  ghost function Promised(layouts: seq<Layout>, transfer: Transfer, id: string): Option<Tab> {
    var tab, source := TabIn(layouts, id), TabIn(layouts, transfer.sourceWorkspaceId);
    var pane, at := transfer.sourcePaneId, transfer.targetPaneId;
    var isSource, isTarget := id == transfer.sourceWorkspaceId, id == transfer.targetWorkspaceId;
    if !isSource && !isTarget then tab
    else match transfer.kind
      case ExtractPane => if isTarget then TabOfPane(layouts, transfer.sourceWorkspaceId, pane) else Departed(tab, pane)
      case SwapPanes =>
        if tab.None? then None
        else if isSource && isTarget then Some(Swapped(tab.value, Exchanging(pane, at), pane))
        else if isTarget then Some(Swapped(tab.value, Replacing(at, pane), pane))
        else Some(Swapped(tab.value, Replacing(pane, at), if tab.value.active == pane then at else tab.value.active))
      case MergeWorkspace =>
        if isSource || tab.None? || source.None? then None
        else Some(JoinedBy(tab.value, transfer, source.value.screen, source.value.active))
      case MovePane =>
        if tab.None? then None
        else if !isTarget then Departed(tab, pane)
        else if !isSource then Some(JoinedBy(tab.value, transfer, Terminal(pane), pane))
        else
          Some(MovedTab(tab.value, pane, at, transfer.splitNodeId, transfer.orientation, transfer.placeAfter).(active := pane))
  }

  // ----- tabs in the list -----

  lemma {:induction false} TabInUpdate(layouts: seq<Layout>, k: nat, layout: Layout, id: string)
    requires UniqueLayoutIds(layouts) && k < |layouts| && layout.id == layouts[k].id && ValidLayout(layout)
    ensures TabIn(layouts[k := layout], id) == if id == layout.id then Some(TabOf(layout)) else TabIn(layouts, id)
  {
    hide ValidLayout, TabOf;
    var after := layouts[k := layout];
    var i, j := FindLayout(layouts, id), FindLayout(after, id);
    assert i < |layouts| ==> after[i].id == id;
    assert j < |layouts| ==> layouts[j].id == id;
    assert i == j;
    FindUnique(layouts, k);
  }

  lemma {:induction false} TabInCons(layout: Layout, rest: seq<Layout>, id: string)
    ensures TabIn([layout] + rest, id)
         == if id != layout.id then TabIn(rest, id) else if ValidLayout(layout) then Some(TabOf(layout)) else None
  {
    hide ValidLayout, TabOf;
    assert ([layout] + rest)[1..] == rest;
  }

  lemma {:induction false} TabInErased(layouts: seq<Layout>, gone: string, id: string)
    ensures TabIn(EraseLayout(layouts, gone), id) == if id == gone then None else TabIn(layouts, id)
  {
    hide ValidLayout, TabOf;
    if layouts == [] {
      return;
    }
    var rest := EraseLayout(layouts[1..], gone);
    assert EraseLayout(layouts, gone) == if layouts[0].id == gone then rest else [layouts[0]] + rest;
    hide EraseLayout;
    TabInErased(layouts[1..], gone, id);
    TabInCons(layouts[0], layouts[1..], id);
    TabInCons(layouts[0], rest, id);
    assert layouts == [layouts[0]] + layouts[1..];
  }

  lemma {:induction false} TabInAppended(layouts: seq<Layout>, layout: Layout, id: string)
    requires FindLayout(layouts, layout.id) == |layouts| && ValidLayout(layout)
    ensures TabIn(layouts + [layout], id) == if id == layout.id then Some(TabOf(layout)) else TabIn(layouts, id)
  {
    hide ValidLayout, TabOf;
    var all := layouts + [layout];
    var i, j := FindLayout(layouts, id), FindLayout(all, id);
    assert all[|layouts|] == layout;
    assert i < |layouts| ==> all[i].id == id;
    assert j < |layouts| ==> layouts[j].id == id;
  }

  lemma {:induction false} TabInAt(layouts: seq<Layout>, k: nat)
    requires k < |layouts| && FindLayout(layouts, layouts[k].id) == k && ValidLayout(layouts[k])
    ensures TabIn(layouts, layouts[k].id) == Some(TabOf(layouts[k]))
  {
    hide ValidLayout, TabOf;
  }

  // ----- a pane leaves -----

  lemma {:induction false} ForkHasTwo(nodes: seq<Node>, tree: Tree)
    requires Grows(nodes, tree)
    ensures tree.Fork? ==> |Panes(tree)| >= 2
  {
    if tree.Fork? {
      PanesAreLeaves(nodes, tree.first);
      PanesAreLeaves(nodes, tree.second);
    }
  }

  lemma {:induction false} OnePaneIsTip(nodes: seq<Node>, tree: Tree, pane: string)
    requires Grows(nodes, tree) && Panes(tree) == [pane]
    ensures Drawn(nodes, tree) == Terminal(pane)
  {
    ForkHasTwo(nodes, tree);
  }

  /** A tab with a single restore intent shows a single terminal. */
  lemma {:induction false} SingleShows(layout: Layout, pane: string)
    requires ValidLayout(layout) && IsLeaf(layout.nodes, pane) && |layout.restoreIntents| == 1
    ensures ScreenOf(layout) == Terminal(pane)
  {
    hide ValidLayout, Grows, Panes, Drawn;
    SinglePaneOrder(layout, pane);
    OnePaneIsTip(layout.nodes, TreeOf(layout), pane);
  }

  lemma {:induction false} TabWithoutPane(layouts: seq<Layout>, s: nat, transfer: Transfer, id: string)
    requires s < |layouts| && UniqueLayoutIds(layouts) && layouts[s].id == transfer.sourceWorkspaceId
    requires ValidLayout(layouts[s]) && IsLeaf(layouts[s].nodes, transfer.sourcePaneId)
    requires WithoutPane(layouts, s, transfer).Some?
    ensures TabIn(WithoutPane(layouts, s, transfer).value, id)
         == if id == transfer.sourceWorkspaceId then Departed(TabIn(layouts, id), transfer.sourcePaneId) else TabIn(layouts, id)
  {
    var pane := transfer.sourcePaneId;
    hide ValidLayout, ScreenOf, CloseTerminalPane, TabIn, UniqueLayoutIds, IsLeaf;
    FindUnique(layouts, s);
    TabInAt(layouts, s);
    if |layouts[s].restoreIntents| > 1 {
      CloseShows(layouts[s], pane);
      CloseKeepsId(layouts[s], pane);
      TabInUpdate(layouts, s, CloseTerminalPane(layouts[s], pane).value, id);
    } else {
      SomeIntent(layouts[s]);
      SingleShows(layouts[s], pane);
      TabInErased(layouts, layouts[s].id, id);
    }
  }

  // ----- the transfers -----

  lemma {:induction false} SwapPromised(state: State, transfer: Transfer, id: string)
    requires TransferTerminalWorkspace(state, transfer).Some? && transfer.kind.SwapPanes?
    ensures TabIn(TransferTerminalWorkspace(state, transfer).value.terminalWorkspaces, id) == Promised(state.terminalWorkspaces, transfer, id)
  {
    hide ValidLayout, ScreenOf, ValidState, Substitute, ExchangeChildren, FindIntent, UniqueLayoutIds, TabIn, Relettered;
    var layouts, after := state.terminalWorkspaces, TransferTerminalWorkspace(state, transfer).value.terminalWorkspaces;
    ValidParts(state);
    ValidParts(TransferTerminalWorkspace(state, transfer).value);
    var s, t := FindLayout(layouts, transfer.sourceWorkspaceId), FindLayout(layouts, transfer.targetWorkspaceId);
    if s == t {
      var swapped := SwapInside(layouts[s], transfer).value;
      assert after[s] == swapped;
      SwapShows(layouts[s], transfer);
      TabInAt(layouts, s);
      TabInUpdate(layouts, s, swapped, id);
    } else {
      SwapAcrossPromised(state, s, t, transfer, after, id);
    }
  }

  lemma {:induction false} SwapAcrossPromised(state: State, s: nat, t: nat, transfer: Transfer, after: seq<Layout>, id: string)
    requires ValidState(state) && s < |state.terminalWorkspaces| && t < |state.terminalWorkspaces| && s != t && transfer.kind.SwapPanes?
    requires s == FindLayout(state.terminalWorkspaces, transfer.sourceWorkspaceId) && t == FindLayout(state.terminalWorkspaces, transfer.targetWorkspaceId)
    requires SwapAcross(state, s, t, transfer).Some? && SwapAcross(state, s, t, transfer).value.terminalWorkspaces == after
    requires forall k :: 0 <= k < |after| ==> ValidLayout(after[k])
    ensures TabIn(after, id) == Promised(state.terminalWorkspaces, transfer, id)
  {
    hide ValidLayout, ScreenOf, ValidState, Substitute, FindIntent, TabIn, Relettered;
    ValidParts(state);
    var layouts := state.terminalWorkspaces;
    var source, target := layouts[s], layouts[t];
    var a, b := FindNode(source.nodes, transfer.sourcePaneId), FindNode(target.nodes, transfer.targetPaneId);
    LeafHasIntent(source, a);
    LeafHasIntent(target, b);
    var source', target' := SwappedSource(source, target, transfer), SwappedTarget(source, target, transfer);
    assert after == layouts[s := source'][t := target'] && after[s] == source' && after[t] == target';
    SubstituteFocus(source, a, target.nodes[b], IntentOf(target, b));
    SubstituteShows(source, a, target.nodes[b], IntentOf(target, b), source');
    SubstituteShows(target, b, source.nodes[a], IntentOf(source, a), target');
    SubstituteKeepsId(source, a, target.nodes[b], IntentOf(target, b));
    SubstituteKeepsId(target, b, source.nodes[a], IntentOf(source, a));
    TabInAt(layouts, s);
    TabInAt(layouts, t);
    hide SwappedSource, SwappedTarget;
    assert UniqueLayoutIds(layouts[s := source']);
    TabInUpdate(layouts, s, source', id);
    TabInUpdate(layouts[s := source'], t, target', id);
  }

  lemma {:induction false} SubstituteFocus(layout: Layout, mine: nat, other: Node, otherIntent: Intent)
    requires mine < |layout.nodes|
    requires FindIntent(layout.restoreIntents, layout.nodes[mine].restoreIntentId) < |layout.restoreIntents|
    ensures Substitute(layout, mine, other, otherIntent).activePaneId == layout.activePaneId
  {
  }

  lemma {:induction false} MergePromised(state: State, transfer: Transfer, id: string)
    requires TransferTerminalWorkspace(state, transfer).Some? && transfer.kind.MergeWorkspace?
    ensures TabIn(TransferTerminalWorkspace(state, transfer).value.terminalWorkspaces, id) == Promised(state.terminalWorkspaces, transfer, id)
  {
    hide ValidLayout, ScreenOf, ValidState, InsertTree, UniqueLayoutIds, TabIn, Shared;
    var layouts := state.terminalWorkspaces;
    ValidParts(state);
    var s, t := FindLayout(layouts, transfer.sourceWorkspaceId), FindLayout(layouts, transfer.targetWorkspaceId);
    InsertShows(layouts[t], layouts[s], TreeOf(layouts[s]), transfer);
    DrawnIsScreen(layouts[s]);
    var grown := InsertTree(layouts[t], layouts[s], transfer).value;
    InsertKeepsId(layouts[t], layouts[s], transfer);
    TabInAt(layouts, s);
    TabInAt(layouts, t);
    TabInUpdate(layouts, t, grown, id);
    TabInErased(layouts[t := grown], transfer.sourceWorkspaceId, id);
  }

  lemma {:induction false} DrawnIsScreen(layout: Layout)
    requires ValidLayout(layout)
    ensures Drawn(layout.nodes, TreeOf(layout)) == ScreenOf(layout)
  {
  }

  lemma {:induction false} MovePromised(state: State, transfer: Transfer, id: string)
    requires TransferTerminalWorkspace(state, transfer).Some? && transfer.kind.MovePane?
    ensures TabIn(TransferTerminalWorkspace(state, transfer).value.terminalWorkspaces, id) == Promised(state.terminalWorkspaces, transfer, id)
  {
    hide ValidLayout, ScreenOf, ValidState, InsertTree, UniqueLayoutIds, MoveTerminalPane, WithoutPane, Extracted, TabIn, Departed, MovedTab, JoinedBy;
    var layouts, after := state.terminalWorkspaces, TransferTerminalWorkspace(state, transfer).value.terminalWorkspaces;
    var pane, at := transfer.sourcePaneId, transfer.targetPaneId;
    ValidParts(state);
    ValidParts(TransferTerminalWorkspace(state, transfer).value);
    var s, t := FindLayout(layouts, transfer.sourceWorkspaceId), FindLayout(layouts, transfer.targetWorkspaceId);
    if s == t {
      MoveShows(layouts[s], pane, at, transfer.splitNodeId, transfer.orientation, transfer.placeAfter);
      var moved := MoveTerminalPane(layouts[s], pane, at, transfer.splitNodeId, transfer.orientation, transfer.placeAfter).value;
      var active := moved.(activePaneId := pane);
      assert after[s] == active;
      SameScreen(moved, active);
      MoveKeepsId(layouts[s], pane, at, transfer.splitNodeId, transfer.orientation, transfer.placeAfter);
      TabInAt(layouts, s);
      TabInUpdate(layouts, s, active, id);
    } else {
      MoveAcrossPromised(layouts, s, transfer, after, id);
    }
  }

  lemma {:induction false} MoveAcrossPromised(layouts: seq<Layout>, s: nat, transfer: Transfer, after: seq<Layout>, id: string)
    requires s < |layouts| && UniqueLayoutIds(layouts) && layouts[s].id == transfer.sourceWorkspaceId
    requires transfer.kind.MovePane? && transfer.sourceWorkspaceId != transfer.targetWorkspaceId
    requires (forall k :: 0 <= k < |layouts| ==> ValidLayout(layouts[k])) && IsLeaf(layouts[s].nodes, transfer.sourcePaneId)
    requires WithoutPane(layouts, s, transfer).Some?
    requires var remaining := WithoutPane(layouts, s, transfer).value;
      var target := FindLayout(remaining, transfer.targetWorkspaceId);
      target < |remaining| && InsertTree(remaining[target], Extracted(layouts[s], transfer), transfer).Some?
      && after == remaining[target := InsertTree(remaining[target], Extracted(layouts[s], transfer), transfer).value]
    ensures TabIn(after, id) == Promised(layouts, transfer, id)
  {
    hide ValidLayout, ScreenOf, InsertTree, UniqueLayoutIds, WithoutPane, Extracted, TabIn, Departed, JoinedBy;
    var pane, remaining := transfer.sourcePaneId, WithoutPane(layouts, s, transfer).value;
    var target := FindLayout(remaining, transfer.targetWorkspaceId);
    var extracted := Extracted(layouts[s], transfer);
    RemainingValid(layouts, s, transfer);
    TabWithoutPane(layouts, s, transfer, id);
    ExtractedOrder(layouts[s], transfer);
    ExtractedRoot(layouts[s], transfer);
    ExtractedFocus(layouts[s], transfer);
    TipDrawn(extracted.nodes, pane);
    InsertShows(remaining[target], extracted, Tip(pane), transfer);
    InsertKeepsId(remaining[target], extracted, transfer);
    TabInAt(remaining, target);
    TabInUpdate(remaining, target, InsertTree(remaining[target], extracted, transfer).value, id);
    FindUnique(layouts, s);
    TabInAt(layouts, s);
  }

  lemma {:induction false} TipDrawn(nodes: seq<Node>, pane: string)
    requires Grows(nodes, Tip(pane))
    ensures Drawn(nodes, Tip(pane)) == Terminal(pane)
  {
  }

  lemma {:induction false} ExtractPromised(state: State, transfer: Transfer, id: string)
    requires TransferTerminalWorkspace(state, transfer).Some? && transfer.kind.ExtractPane?
    ensures TabIn(TransferTerminalWorkspace(state, transfer).value.terminalWorkspaces, id) == Promised(state.terminalWorkspaces, transfer, id)
  {
    hide ValidLayout, ScreenOf, ValidState, UniqueLayoutIds, WithoutPane, Extracted, TabIn, Departed, TabOf, IntentOf;
    var layouts, after := state.terminalWorkspaces, TransferTerminalWorkspace(state, transfer).value.terminalWorkspaces;
    ValidParts(state);
    ValidParts(TransferTerminalWorkspace(state, transfer).value);
    var s := FindLayout(layouts, transfer.sourceWorkspaceId);
    var remaining, extracted := WithoutPane(layouts, s, transfer).value, Extracted(layouts[s], transfer);
    assert after == remaining + [extracted] && after[|remaining|] == extracted;
    TabWithoutPane(layouts, s, transfer, id);
    ExtractedShows(layouts[s], transfer);
    ExtractedRoot(layouts[s], transfer);
    AppendedIsNew(after);
    assert after[..|after| - 1] == remaining;
    TabInAppended(remaining, extracted, id);
  }

  lemma {:induction false} ExtractedShows(source: Layout, transfer: Transfer)
    requires ValidLayout(source) && IsLeaf(source.nodes, transfer.sourcePaneId) && ValidLayout(Extracted(source, transfer))
    ensures var intent := IntentOf(source, FindNode(source.nodes, transfer.sourcePaneId));
      TabOf(Extracted(source, transfer)) == Tab(Terminal(transfer.sourcePaneId), transfer.sourcePaneId, intent.title, intent.manualTitle, "main", "")
  {
    hide ValidLayout, ScreenOf, Grows, IntentOf;
    ExtractedOrder(source, transfer);
    ExtractedRoot(source, transfer);
    TipDrawn(Extracted(source, transfer).nodes, transfer.sourcePaneId);
    ShowsTree(Extracted(source, transfer), Tip(transfer.sourcePaneId));
  }

  ghost predicate ShownAsPromised(before: seq<Layout>, transfer: Transfer, after: seq<Layout>) {
    forall id :: TabIn(after, id) == Promised(before, transfer, id)
  }

  /**
   After a successful transfer every tab, whether it takes part or not, shows exactly what the request
   promises: which panes stand where, in which direction and proportion each split divides them, which
   pane is active, and the tab's titles, window and return address.
   */
  lemma {:induction false} TransferShows(state: State, transfer: Transfer, after: State)
    requires TransferTerminalWorkspace(state, transfer) == Some(after)
    ensures ShownAsPromised(state.terminalWorkspaces, transfer, after.terminalWorkspaces)
  {
    hide TransferTerminalWorkspace, Promised, TabIn;
    forall id: string
      ensures TabIn(after.terminalWorkspaces, id) == Promised(state.terminalWorkspaces, transfer, id)
    {
      TabPromised(state, transfer, id);
    }
  }

  lemma {:induction false} TabPromised(state: State, transfer: Transfer, id: string)
    requires TransferTerminalWorkspace(state, transfer).Some?
    ensures TabIn(TransferTerminalWorkspace(state, transfer).value.terminalWorkspaces, id) == Promised(state.terminalWorkspaces, transfer, id)
  {
    hide TransferTerminalWorkspace, Promised, TabIn;
    match transfer.kind {
      case SwapPanes => SwapPromised(state, transfer, id);
      case MergeWorkspace => MergePromised(state, transfer, id);
      case MovePane => MovePromised(state, transfer, id);
      case ExtractPane => ExtractPromised(state, transfer, id);
    }
  }

  // ----- the list of tabs -----

  /** The tab goes with the transfer: it is merged, or gives away its only pane. */
  ghost predicate SourceGoes(layouts: seq<Layout>, transfer: Transfer) {
    || transfer.kind.MergeWorkspace?
    || ((transfer.kind.ExtractPane? || (transfer.kind.MovePane? && transfer.sourceWorkspaceId != transfer.targetWorkspaceId))
        && TabIn(layouts, transfer.sourceWorkspaceId).Some? && TabIn(layouts, transfer.sourceWorkspaceId).value.screen.Terminal?)
  }

  /** The tabs after the transfer, in the order of the list: all keep their places, an extracted pane comes last. */
  ghost function PromisedIds(layouts: seq<Layout>, transfer: Transfer): seq<string> {
    (if SourceGoes(layouts, transfer) then Without(TabIds(layouts), transfer.sourceWorkspaceId) else TabIds(layouts))
    + if transfer.kind.ExtractPane? then [transfer.targetWorkspaceId] else []
  }

  lemma {:induction false} TabIdsUpdate(layouts: seq<Layout>, k: nat, layout: Layout)
    requires k < |layouts| && layout.id == layouts[k].id
    ensures TabIds(layouts[k := layout]) == TabIds(layouts)
  {
    hide TabIds;
  }

  lemma {:induction false} TabIdsErased(layouts: seq<Layout>, gone: string)
    ensures TabIds(EraseLayout(layouts, gone)) == Without(TabIds(layouts), gone)
  {
    if layouts == [] {
      return;
    }
    var rest := EraseLayout(layouts[1..], gone);
    assert EraseLayout(layouts, gone) == if layouts[0].id == gone then rest else [layouts[0]] + rest;
    hide EraseLayout;
    TabIdsErased(layouts[1..], gone);
    assert ([layouts[0]] + rest)[1..] == rest;
    WithoutCons(layouts[0].id, TabIds(layouts[1..]), gone);
  }

  lemma {:induction false} TabIdsAppended(layouts: seq<Layout>, layout: Layout)
    ensures TabIds(layouts + [layout]) == TabIds(layouts) + [layout.id]
  {
    hide TabIds;
    assert forall k :: 0 <= k < |layouts| ==> (layouts + [layout])[k] == layouts[k];
  }

  lemma {:induction false} IdsWithoutPane(layouts: seq<Layout>, s: nat, transfer: Transfer)
    requires s < |layouts| && UniqueLayoutIds(layouts) && layouts[s].id == transfer.sourceWorkspaceId
    requires ValidLayout(layouts[s]) && IsLeaf(layouts[s].nodes, transfer.sourcePaneId)
    requires WithoutPane(layouts, s, transfer).Some?
    ensures TabIn(layouts, transfer.sourceWorkspaceId).Some?
    ensures TabIds(WithoutPane(layouts, s, transfer).value)
         == if TabIn(layouts, transfer.sourceWorkspaceId).value.screen.Terminal? then Without(TabIds(layouts), transfer.sourceWorkspaceId)
            else TabIds(layouts)
  {
    hide ValidLayout, ScreenOf, CloseTerminalPane, TabIn, UniqueLayoutIds, IsLeaf, TabIds, Without;
    var pane := transfer.sourcePaneId;
    FindUnique(layouts, s);
    TabInAt(layouts, s);
    if |layouts[s].restoreIntents| > 1 {
      CloseShows(layouts[s], pane);
      CloseKeepsId(layouts[s], pane);
      TabIdsUpdate(layouts, s, CloseTerminalPane(layouts[s], pane).value);
    } else {
      SomeIntent(layouts[s]);
      SingleShows(layouts[s], pane);
      TabIdsErased(layouts, layouts[s].id);
    }
  }

  /** A successful transfer leaves the tabs in their order, and the target tab is the active one. */
  lemma {:induction false} TransferKeepsTabOrder(state: State, transfer: Transfer, after: State)
    requires TransferTerminalWorkspace(state, transfer) == Some(after)
    ensures TabIds(after.terminalWorkspaces) == PromisedIds(state.terminalWorkspaces, transfer)
    ensures after == state.(terminalWorkspaces := after.terminalWorkspaces, activeTerminalWorkspaceId := transfer.targetWorkspaceId)
  {
    hide ValidLayout, ValidState, InsertTree, UniqueLayoutIds, MoveTerminalPane, WithoutPane, Extracted, TabIn, TabIds, Without, Substitute, FindIntent, EraseLayout, SwapInside;
    var layouts := state.terminalWorkspaces;
    ValidParts(state);
    var s, t := FindLayout(layouts, transfer.sourceWorkspaceId), FindLayout(layouts, transfer.targetWorkspaceId);
    match transfer.kind {
      case SwapPanes =>
        if s == t {
          SwapInsideKeepsId(layouts[s], transfer);
          TabIdsUpdate(layouts, s, SwapInside(layouts[s], transfer).value);
        } else {
          SwapAcrossIds(state, s, t, transfer);
        }
      case MergeWorkspace =>
        var grown := InsertTree(layouts[t], layouts[s], transfer).value;
        InsertKeepsId(layouts[t], layouts[s], transfer);
        TabIdsUpdate(layouts, t, grown);
        TabIdsErased(layouts[t := grown], transfer.sourceWorkspaceId);
      case MovePane =>
        if s == t {
          var moved := MoveTerminalPane(layouts[s], transfer.sourcePaneId, transfer.targetPaneId, transfer.splitNodeId,
                                        transfer.orientation, transfer.placeAfter).value;
          MoveKeepsId(layouts[s], transfer.sourcePaneId, transfer.targetPaneId, transfer.splitNodeId, transfer.orientation, transfer.placeAfter);
          TabIdsUpdate(layouts, s, moved.(activePaneId := transfer.sourcePaneId));
        } else {
          var remaining := WithoutPane(layouts, s, transfer).value;
          var target := FindLayout(remaining, transfer.targetWorkspaceId);
          IdsWithoutPane(layouts, s, transfer);
          InsertKeepsId(remaining[target], Extracted(layouts[s], transfer), transfer);
          TabIdsUpdate(remaining, target, InsertTree(remaining[target], Extracted(layouts[s], transfer), transfer).value);
        }
      case ExtractPane =>
        var remaining := WithoutPane(layouts, s, transfer).value;
        IdsWithoutPane(layouts, s, transfer);
        ExtractedRoot(layouts[s], transfer);
        TabIdsAppended(remaining, Extracted(layouts[s], transfer));
    }
  }

  lemma {:induction false} SwapInsideKeepsId(layout: Layout, transfer: Transfer)
    requires SwapInside(layout, transfer).Some?
    ensures SwapInside(layout, transfer).value.id == layout.id
  {
  }

  lemma {:induction false} SwapAcrossIds(state: State, s: nat, t: nat, transfer: Transfer)
    requires ValidState(state) && s < |state.terminalWorkspaces| && t < |state.terminalWorkspaces| && s != t
    requires SwapAcross(state, s, t, transfer).Some?
    ensures TabIds(SwapAcross(state, s, t, transfer).value.terminalWorkspaces) == TabIds(state.terminalWorkspaces)
    ensures SwapAcross(state, s, t, transfer).value == state.(terminalWorkspaces := SwapAcross(state, s, t, transfer).value.terminalWorkspaces)
  {
    hide ValidLayout, ValidState, TabIds, FindIntent;
    var layouts := state.terminalWorkspaces;
    ValidParts(state);
    var source', target' := SwappedSource(layouts[s], layouts[t], transfer), SwappedTarget(layouts[s], layouts[t], transfer);
    TabIdsUpdate(layouts, s, source');
    TabIdsUpdate(layouts[s := source'], t, target');
  }
}
