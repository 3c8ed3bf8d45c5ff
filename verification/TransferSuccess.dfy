/**
 When a transfer succeeds.  It works on a copy and publishes it only if the whole state validates;
 which requests pass is decided here by the state and the request alone.
 */
module TransferSuccess {
  import opened WorkspaceState
  import opened PaneTree
  import opened WorkspaceTransfer
  import opened PaneOrder
  import opened LayoutParts
  import opened PaneClosing
  import opened PaneAssembly
  import opened PaneSwaps
  import opened TransferOrder

  /** The pane as a node. */
  function PaneOf(layout: Layout, id: string): Node
    requires IsLeaf(layout.nodes, id)
  {
    layout.nodes[FindNode(layout.nodes, id)]
  }

  /** What the request must find in the state. */
  predicate TransferPossible(state: State, transfer: Transfer) {
    var layouts := state.terminalWorkspaces;
    var s, t := FindLayout(layouts, transfer.sourceWorkspaceId), FindLayout(layouts, transfer.targetWorkspaceId);
    && ValidState(state) && transfer.sourceWorkspaceId != "" && transfer.targetWorkspaceId != "" && s < |layouts|
    && match transfer.kind
       case SwapPanes =>
         && t < |layouts| && IsLeaf(layouts[s].nodes, transfer.sourcePaneId) && IsLeaf(layouts[t].nodes, transfer.targetPaneId)
         && (s == t || SwapPossible(layouts[s], layouts[t], transfer))
       case MergeWorkspace =>
         t < |layouts| && s != t && InsertPossible(layouts[t], layouts[s], transfer)
       case MovePane =>
         if s == t then MovePossible(layouts[s], transfer.sourcePaneId, transfer.targetPaneId, transfer.splitNodeId)
         else
           t < |layouts| && IsLeaf(layouts[s].nodes, transfer.sourcePaneId)
           && InsertPossible(layouts[t], Extracted(layouts[s], transfer), transfer)
       case ExtractPane =>
         && IsLeaf(layouts[s].nodes, transfer.sourcePaneId) && t == |layouts| && BoundedText(transfer.targetWorkspaceId, 128, false)
         && (|layouts[s].restoreIntents| > 1 ==> |layouts| < MAXIMUM_TERMINAL_WORKSPACES)
  }

  /** Neither tab has the other's pane or intent already. */
  predicate SwapPossible(source: Layout, target: Layout, transfer: Transfer)
    requires IsLeaf(source.nodes, transfer.sourcePaneId) && IsLeaf(target.nodes, transfer.targetPaneId)
  {
    var first, second := PaneOf(source, transfer.sourcePaneId), PaneOf(target, transfer.targetPaneId);
    Admits(source, first, second) && Admits(target, second, first)
  }

  // ----- the validity of the whole state -----

  lemma {:induction false} IntentCountUpdate(layouts: seq<Layout>, k: nat, layout: Layout)
    requires k < |layouts|
    ensures IntentCount(layouts[k := layout]) + |layouts[k].restoreIntents| == IntentCount(layouts) + |layout.restoreIntents|
  {
    if k == 0 {
      assert layouts[0 := layout][1..] == layouts[1..];
    } else {
      IntentCountUpdate(layouts[1..], k - 1, layout);
      assert layouts[k := layout][1..] == layouts[1..][k - 1 := layout];
    }
  }

  lemma {:induction false} IntentCountErase(layouts: seq<Layout>, k: nat)
    requires k < |layouts| && UniqueLayoutIds(layouts)
    ensures IntentCount(EraseLayout(layouts, layouts[k].id)) + |layouts[k].restoreIntents| == IntentCount(layouts)
    ensures |EraseLayout(layouts, layouts[k].id)| == |layouts| - 1
  {
    if k == 0 {
      assert forall j :: 0 <= j < |layouts[1..]| ==> layouts[1..][j].id != layouts[0].id;
      EraseNothing(layouts[1..], layouts[0].id);
      assert EraseLayout(layouts, layouts[0].id) == [] + layouts[1..] == layouts[1..];
    } else {
      assert forall i, j :: 0 <= i < j < |layouts[1..]| ==> layouts[1..][i].id != layouts[1..][j].id;
      IntentCountErase(layouts[1..], k - 1);
      var rest := EraseLayout(layouts[1..], layouts[k].id);
      assert EraseLayout(layouts, layouts[k].id) == [layouts[0]] + rest;
      assert ([layouts[0]] + rest)[1..] == rest;
    }
  }

  lemma {:induction false} IntentCountAppend(layouts: seq<Layout>, layout: Layout)
    ensures IntentCount(layouts + [layout]) == IntentCount(layouts) + |layout.restoreIntents|
  {
    if layouts == [] {
      assert [] + [layout] == [layout] && [layout][1..] == [];
    } else {
      IntentCountAppend(layouts[1..], layout);
      assert (layouts + [layout])[1..] == layouts[1..] + [layout];
    }
  }

  lemma {:induction false} IntentIsHeld(intents: seq<Intent>, j: nat)
    requires j < |intents|
    ensures InIntents(intents, Restore(intents[j])) > 0
  {
    if j > 0 {
      IntentIsHeld(intents[1..], j - 1);
    }
  }

  lemma {:induction false} HeldIntentIsThere(intents: seq<Intent>, intent: Intent)
    requires InIntents(intents, Restore(intent)) > 0
    ensures intent.id in IntentIds(intents)
  {
    if Restore(intents[0]) != Restore(intent) {
      HeldIntentIsThere(intents[1..], intent);
      var k :| 0 <= k < |intents[1..]| && intents[1..][k].id == intent.id;
      assert intents[k + 1].id == intent.id;
    }
  }

  lemma {:induction false} PanesHoldNoIntent(nodes: seq<Node>, intent: Intent)
    ensures InNodes(nodes, Restore(intent)) == 0
  {
    if nodes != [] {
      PanesHoldNoIntent(nodes[1..], intent);
    }
  }

  lemma {:induction false} HeldMeansContained(layouts: seq<Layout>, intent: Intent)
    requires AllHeld(layouts, Restore(intent)) > 0
    ensures ContainsIntent(layouts, intent.id)
  {
    PanesHoldNoIntent(layouts[0].nodes, intent);
    hide InNodes;
    if InIntents(layouts[0].restoreIntents, Restore(intent)) > 0 {
      hide InIntents;
      HeldIntentIsThere(layouts[0].restoreIntents, intent);
    } else {
      HeldMeansContained(layouts[1..], intent);
      var k :| 0 <= k < |layouts[1..]| && intent.id in IntentIds(layouts[1..][k].restoreIntents);
      assert intent.id in IntentIds(layouts[k + 1].restoreIntents);
    }
  }

  /** An intent that the state contains is still there when everything is held as before. */
  lemma {:induction false} StillContained(before: seq<Layout>, after: seq<Layout>, id: string)
    requires SameHoldings(before, after) && ContainsIntent(before, id)
    ensures ContainsIntent(after, id)
  {
    hide AllHeld, InNodes, InIntents;
    var k :| 0 <= k < |before| && id in IntentIds(before[k].restoreIntents);
    var j :| 0 <= j < |before[k].restoreIntents| && before[k].restoreIntents[j].id == id;
    var intent := before[k].restoreIntents[j];
    IntentIsHeld(before[k].restoreIntents, j);
    HeldSomewhere(before, k, Restore(intent));
    HeldMeansContained(after, intent);
  }

  /** The candidate validates if its tabs do, there are not too many, and nothing was lost. */
  lemma {:induction false} CandidateIsValid(state: State, layouts: seq<Layout>, active: string)
    requires ValidState(state) && SameHoldings(state.terminalWorkspaces, layouts)
    requires forall k :: 0 <= k < |layouts| ==> ValidLayout(layouts[k])
    requires UniqueLayoutIds(layouts) && |layouts| <= MAXIMUM_TERMINAL_WORKSPACES
    requires IntentCount(layouts) == IntentCount(state.terminalWorkspaces) && FindLayout(layouts, active) < |layouts|
    ensures ValidState(state.(terminalWorkspaces := layouts, activeTerminalWorkspaceId := active))
  {
    hide ValidLayout, AllHeld, SameHoldings, IntentCount, ContainsIntent, BoundedText, UniqueLayoutIds;
    forall id | ContainsIntent(state.terminalWorkspaces, id)
      ensures ContainsIntent(layouts, id)
    {
      StillContained(state.terminalWorkspaces, layouts, id);
    }
  }

  /** The steps on the copy, then the validation. */
  lemma {:induction false} TransferIs(state: State, transfer: Transfer)
    requires ValidState(state) && transfer.sourceWorkspaceId != "" && transfer.targetWorkspaceId != ""
    ensures var applied := ApplyTransfer(state, transfer);
      TransferTerminalWorkspace(state, transfer).Some?
      <==> applied.Some? && ValidState(applied.value.(activeTerminalWorkspaceId := transfer.targetWorkspaceId))
  {
    hide ValidState, ApplyTransfer;
  }

  /** The steps touch nothing but the tabs. */
  lemma {:induction false} AppliedIs(state: State, transfer: Transfer)
    requires ValidState(state) && ApplyTransfer(state, transfer).Some?
    ensures var after := ApplyTransfer(state, transfer).value;
      after == state.(terminalWorkspaces := after.terminalWorkspaces)
  {
    hide ValidState, InsertTree, WithoutPane, Extracted, SwapInside, MoveTerminalPane;
  }

  /** So a transfer whose steps succeed is published exactly if these four hold of the tabs. */
  ghost predicate TabsInOrder(state: State, layouts: seq<Layout>, active: string) {
    && (forall k :: 0 <= k < |layouts| ==> ValidLayout(layouts[k]))
    && UniqueLayoutIds(layouts) && |layouts| <= MAXIMUM_TERMINAL_WORKSPACES
    && IntentCount(layouts) == IntentCount(state.terminalWorkspaces) && FindLayout(layouts, active) < |layouts|
  }

  lemma {:induction false} PublishedIfInOrder(state: State, transfer: Transfer)
    requires ValidState(state) && transfer.sourceWorkspaceId != "" && transfer.targetWorkspaceId != ""
    requires ApplyTransfer(state, transfer).Some?
    requires TabsInOrder(state, ApplyTransfer(state, transfer).value.terminalWorkspaces, transfer.targetWorkspaceId)
    ensures TransferTerminalWorkspace(state, transfer).Some?
  {
    hide ValidState, ApplyTransfer, ValidLayout, SameHoldings, UniqueLayoutIds, TransferTerminalWorkspace;
    var after := ApplyTransfer(state, transfer).value;
    AppliedIs(state, transfer);
    AppliedKeepsHoldings(state, transfer);
    CandidateIsValid(state, after.terminalWorkspaces, transfer.targetWorkspaceId);
    TransferIs(state, transfer);
  }

  // ----- the edits of the list of tabs -----

  lemma {:induction false} UpdatedTabs(layouts: seq<Layout>, k: nat, layout: Layout)
    requires UniqueLayoutIds(layouts) && k < |layouts| && layout.id == layouts[k].id && ValidLayout(layout)
    requires forall j :: 0 <= j < |layouts| ==> ValidLayout(layouts[j])
    ensures var after := layouts[k := layout];
      && UniqueLayoutIds(after) && (forall j :: 0 <= j < |after| ==> ValidLayout(after[j]))
      && forall id :: FindLayout(after, id) == FindLayout(layouts, id)
  {
    hide ValidLayout, FindLayout;
    var after := layouts[k := layout];
    assert forall j :: 0 <= j < |layouts| ==> after[j].id == layouts[j].id;
    forall id
      ensures FindLayout(after, id) == FindLayout(layouts, id)
    {
      SameIdsFound(layouts, after, id);
    }
  }

  lemma {:induction false} SameIdsFound(a: seq<Layout>, b: seq<Layout>, id: string)
    requires |a| == |b| && forall j :: 0 <= j < |a| ==> a[j].id == b[j].id
    ensures FindLayout(a, id) == FindLayout(b, id)
  {
    hide FindLayout;
    var i, j := FindLayout(a, id), FindLayout(b, id);
    assert i < |a| ==> b[i].id == id;
    assert j < |b| ==> a[j].id == id;
  }

  lemma {:induction false} ErasedTabs(layouts: seq<Layout>, k: nat, id: string)
    requires UniqueLayoutIds(layouts) && k < |layouts| && forall j :: 0 <= j < |layouts| ==> ValidLayout(layouts[j])
    ensures var after := EraseLayout(layouts, layouts[k].id);
      && UniqueLayoutIds(after) && (forall j :: 0 <= j < |after| ==> ValidLayout(after[j]))
      && (id != layouts[k].id && FindLayout(layouts, id) < |layouts| ==>
           FindLayout(after, id) < |after| && after[FindLayout(after, id)] == layouts[FindLayout(layouts, id)])
      && (FindLayout(layouts, id) == |layouts| ==> FindLayout(after, id) == |after|)
  {
    hide ValidLayout, FindLayout, EraseLayout;
    EraseLayoutIsRemove(layouts, k);
    var after := layouts[..k] + layouts[k + 1..];
    forall j | 0 <= j < |after|
      ensures after[j] == layouts[if j < k then j else j + 1]
    {
    }
    var i, m := FindLayout(layouts, id), FindLayout(after, id);
    if i < |layouts| && i != k {
      assert after[if i < k then i else i - 1] == layouts[i];
    }
  }

  lemma {:induction false} AppendedTabs(layouts: seq<Layout>, layout: Layout)
    requires UniqueLayoutIds(layouts) && FindLayout(layouts, layout.id) == |layouts| && ValidLayout(layout)
    requires forall j :: 0 <= j < |layouts| ==> ValidLayout(layouts[j])
    ensures var after := layouts + [layout];
      UniqueLayoutIds(after) && (forall j :: 0 <= j < |after| ==> ValidLayout(after[j])) && FindLayout(after, layout.id) < |after|
  {
    hide ValidLayout, FindLayout;
    var after := layouts + [layout];
    assert after[|layouts|] == layout;
  }

  // ----- swapping -----

  lemma {:induction false} SwapInsideSucceeds(state: State, transfer: Transfer)
    requires TransferPossible(state, transfer) && transfer.kind.SwapPanes?
    requires FindLayout(state.terminalWorkspaces, transfer.sourceWorkspaceId) == FindLayout(state.terminalWorkspaces, transfer.targetWorkspaceId)
    ensures TransferTerminalWorkspace(state, transfer).Some?
  {
    hide ValidLayout, ValidState, IsLeaf, UniqueLayoutIds, ExchangeChildren, TransferTerminalWorkspace, IntentCount;
    var layouts := state.terminalWorkspaces;
    var s := FindLayout(layouts, transfer.sourceWorkspaceId);
    ValidParts(state);
    StateBounds(state);
    SwapInsideIsValid(layouts[s], transfer);
    var swapped := SwapInside(layouts[s], transfer).value;
    UpdatedTabs(layouts, s, swapped);
    IntentCountUpdate(layouts, s, swapped);
    PublishedIfInOrder(state, transfer);
  }

  lemma {:induction false} StateBounds(state: State)
    requires ValidState(state)
    ensures |state.terminalWorkspaces| <= MAXIMUM_TERMINAL_WORKSPACES
  {
  }

  /** A pane as the other tab gets it. */
  lemma {:induction false} PaneParts(layout: Layout, id: string)
    requires ValidLayout(layout) && IsLeaf(layout.nodes, id)
    ensures var k := FindNode(layout.nodes, id);
      var node := layout.nodes[k];
      && k < |layout.nodes| && node.id == id && node.kind.Leaf? && node.firstChildId == "" && node.secondChildId == ""
      && FindIntent(layout.restoreIntents, node.restoreIntentId) < |layout.restoreIntents|
      && IntentOf(layout, k).id == node.restoreIntentId && ValidIntent(IntentOf(layout, k))
      && NodeFits(node, {node.restoreIntentId})
  {
    hide ValidLayout, BoundedText, ValidIntent, RefsMatched, LeafRefs, IsWhole;
    var k := FindNode(layout.nodes, id);
    Disassembled(layout);
    ValidSplitsInTree(layout);
    LeafHasIntent(layout, k);
    assert NodeFits(layout.nodes[k], IntentIds(layout.restoreIntents));
  }

  lemma {:induction false} SwapAcrossLayouts(source: Layout, target: Layout, transfer: Transfer)
    requires ValidLayout(source) && IsLeaf(source.nodes, transfer.sourcePaneId)
    requires ValidLayout(target) && IsLeaf(target.nodes, transfer.targetPaneId)
    ensures ValidLayout(SwappedSource(source, target, transfer)) && ValidLayout(SwappedTarget(source, target, transfer))
      <==> SwapPossible(source, target, transfer)
    ensures SwappedSource(source, target, transfer).id == source.id && SwappedTarget(source, target, transfer).id == target.id
    ensures |SwappedSource(source, target, transfer).restoreIntents| == |source.restoreIntents|
    ensures |SwappedTarget(source, target, transfer).restoreIntents| == |target.restoreIntents|
  {
    hide ValidLayout, NodeFits, ValidIntent, Admits, FindNode, FindIntent, BoundedText, RenamedBy, RedirectAll;
    var a, b := FindNode(source.nodes, transfer.sourcePaneId), FindNode(target.nodes, transfer.targetPaneId);
    PaneParts(source, transfer.sourcePaneId);
    PaneParts(target, transfer.targetPaneId);
    var first, second := source.nodes[a], target.nodes[b];
    Disassembled(source);
    Disassembled(target);
    SubstituteIsValidExactly(source, a, second, IntentOf(target, b), RedirectId(source.activePaneId, first.id, second.id));
    SubstituteIsValidExactly(target, b, first, IntentOf(source, a), first.id);
    if Admits(source, first, second) {
      AdmitsAway(source, first, second);
      SubstitutedIsWhole(source, a, second);
      LeafRenamed(source.nodes, RedirectAll(source.nodes[a := second], first.id, second.id), Replacing(first.id, second.id), source.activePaneId);
    }
    if Admits(target, second, first) {
      AdmitsAway(target, second, first);
      SubstitutedIsWhole(target, b, first);
      LeafRenamed(target.nodes, RedirectAll(target.nodes[b := first], second.id, first.id), Replacing(second.id, first.id), second.id);
    }
  }

  lemma {:induction false} AdmitsAway(layout: Layout, mine: Node, other: Node)
    requires Admits(layout, mine, other)
    ensures other.id !in NodeIds(layout.nodes) - {mine.id}
  {
  }

  lemma {:induction false} SwapAcrossSucceedsExactly(state: State, transfer: Transfer)
    requires ValidState(state) && transfer.kind.SwapPanes? && transfer.sourceWorkspaceId != "" && transfer.targetWorkspaceId != ""
    requires var layouts := state.terminalWorkspaces;
      var s, t := FindLayout(layouts, transfer.sourceWorkspaceId), FindLayout(layouts, transfer.targetWorkspaceId);
      && s < |layouts| && t < |layouts| && s != t && ValidLayout(layouts[s]) && ValidLayout(layouts[t])
      && IsLeaf(layouts[s].nodes, transfer.sourcePaneId) && IsLeaf(layouts[t].nodes, transfer.targetPaneId)
    ensures var layouts := state.terminalWorkspaces;
      var s, t := FindLayout(layouts, transfer.sourceWorkspaceId), FindLayout(layouts, transfer.targetWorkspaceId);
      TransferTerminalWorkspace(state, transfer).Some? <==> SwapPossible(layouts[s], layouts[t], transfer)
  {
    hide ValidLayout, ValidState, IsLeaf, UniqueLayoutIds, SwappedSource, SwappedTarget, SwapPossible, TransferTerminalWorkspace, IntentCount, FindLayout;
    var layouts := state.terminalWorkspaces;
    var s, t := FindLayout(layouts, transfer.sourceWorkspaceId), FindLayout(layouts, transfer.targetWorkspaceId);
    var source', target' := SwappedSource(layouts[s], layouts[t], transfer), SwappedTarget(layouts[s], layouts[t], transfer);
    ValidParts(state);
    StateBounds(state);
    SwapAcrossLayouts(layouts[s], layouts[t], transfer);
    TransferIs(state, transfer);
    var after := layouts[s := source'][t := target'];
    assert ApplyTransfer(state, transfer) == Some(state.(terminalWorkspaces := after));
    if TransferTerminalWorkspace(state, transfer).Some? {
      ValidParts(state.(terminalWorkspaces := after, activeTerminalWorkspaceId := transfer.targetWorkspaceId));
      assert after[s] == source' && after[t] == target';
    }
    if SwapPossible(layouts[s], layouts[t], transfer) {
      UpdatedTabs(layouts, s, source');
      UpdatedTabs(layouts[s := source'], t, target');
      IntentCountUpdate(layouts, s, source');
      IntentCountUpdate(layouts[s := source'], t, target');
      PublishedIfInOrder(state, transfer);
    }
  }

  // ----- merging -----

  lemma {:induction false} GrownKeeps(target: Layout, source: Layout, transfer: Transfer)
    requires InsertTree(target, source, transfer).Some?
    ensures var grown := InsertTree(target, source, transfer).value;
      && ValidLayout(grown) && grown.id == target.id
      && |grown.restoreIntents| == |target.restoreIntents| + |source.restoreIntents|
  {
    hide ValidLayout, IsLeaf;
    InsertValidatesGrown(target, source, transfer);
  }

  lemma {:induction false} MergeSucceedsExactly(state: State, transfer: Transfer)
    requires ValidState(state) && transfer.kind.MergeWorkspace? && transfer.sourceWorkspaceId != "" && transfer.targetWorkspaceId != ""
    requires var layouts := state.terminalWorkspaces;
      var s, t := FindLayout(layouts, transfer.sourceWorkspaceId), FindLayout(layouts, transfer.targetWorkspaceId);
      s < |layouts| && t < |layouts| && s != t
    ensures var layouts := state.terminalWorkspaces;
      var s, t := FindLayout(layouts, transfer.sourceWorkspaceId), FindLayout(layouts, transfer.targetWorkspaceId);
      TransferTerminalWorkspace(state, transfer).Some? <==> InsertPossible(layouts[t], layouts[s], transfer)
  {
    hide ValidLayout, ValidState, IsLeaf, UniqueLayoutIds, InsertPossible, InsertTree, TransferTerminalWorkspace, IntentCount, FindLayout, EraseLayout, IsInsertable;
    var layouts := state.terminalWorkspaces;
    var s, t := FindLayout(layouts, transfer.sourceWorkspaceId), FindLayout(layouts, transfer.targetWorkspaceId);
    ValidParts(state);
    StateBounds(state);
    ValidIsInsertable(layouts[s]);
    InsertSucceedsExactly(layouts[t], layouts[s], TreeOf(layouts[s]), transfer);
    TransferIs(state, transfer);
    if InsertTree(layouts[t], layouts[s], transfer).Some? {
      var grown := InsertTree(layouts[t], layouts[s], transfer).value;
      GrownKeeps(layouts[t], layouts[s], transfer);
      UpdatedTabs(layouts, t, grown);
      IntentCountUpdate(layouts, t, grown);
      var between := layouts[t := grown];
      assert between[s] == layouts[s] && between[s].id == transfer.sourceWorkspaceId;
      ErasedTabs(between, s, transfer.targetWorkspaceId);
      IntentCountErase(between, s);
      PublishedIfInOrder(state, transfer);
    }
  }

  // ----- moving -----

  lemma {:induction false} MoveKeepsCount(layout: Layout, pane: string, target: string, splitId: string, orientation: Orientation, placeAfter: bool)
    requires MoveTerminalPane(layout, pane, target, splitId, orientation, placeAfter).Some?
    ensures var moved := MoveTerminalPane(layout, pane, target, splitId, orientation, placeAfter).value;
      ValidLayout(moved) && moved.id == layout.id && |moved.restoreIntents| == |layout.restoreIntents| && IsLeaf(moved.nodes, pane)
  {
    hide ValidLayout, MoveTerminalPane, IsLeaf, Order;
    MoveRearrangesOrder(layout, pane, target, splitId, orientation, placeAfter);
    MovedPaneStays(layout, pane, target, splitId, orientation, placeAfter);
    MoveKeepsId(layout, pane, target, splitId, orientation, placeAfter);
  }

  /** The pane that was moved is still there: it is in the order. */
  lemma {:induction false} MovedPaneStays(layout: Layout, pane: string, target: string, splitId: string, orientation: Orientation, placeAfter: bool)
    requires MoveTerminalPane(layout, pane, target, splitId, orientation, placeAfter).Some?
    ensures IsLeaf(MoveTerminalPane(layout, pane, target, splitId, orientation, placeAfter).value.nodes, pane)
  {
    hide ValidLayout, AttachSplit, Promote, EraseNodes, BoundedText, RedirectAll, FindParent, IsLeaf, Rehung, Spare, NodeIds, MoveTerminalPane, MovePossible, Order;
    MoveSucceedsExactly(layout, pane, target, splitId, orientation, placeAfter);
    MoveRearrangesOrder(layout, pane, target, splitId, orientation, placeAfter);
    MovedFocus(layout, pane, target, splitId, orientation, placeAfter);
    var moved := MoveTerminalPane(layout, pane, target, splitId, orientation, placeAfter).value;
    if moved != layout {
      Disassembled(moved);
    } else {
      MovedMeansPossible(layout, pane, target, splitId, orientation, placeAfter);
    }
  }

  lemma {:induction false} MovedFocus(layout: Layout, pane: string, target: string, splitId: string, orientation: Orientation, placeAfter: bool)
    requires MoveTerminalPane(layout, pane, target, splitId, orientation, placeAfter).Some?
    ensures var moved := MoveTerminalPane(layout, pane, target, splitId, orientation, placeAfter).value;
      moved == layout || moved.activePaneId == pane
  {
    hide ValidLayout, AttachSplit, Promote, EraseNodes, FindParent;
  }

  lemma {:induction false} FocusedIsValid(layout: Layout, pane: string)
    requires ValidLayout(layout) && IsLeaf(layout.nodes, pane)
    ensures ValidLayout(layout.(activePaneId := pane))
  {
    hide ValidLayout, IsWhole, RefsMatched, LeafRefs, AllFit, IsLeaf, BoundedText, ValidIntent;
    Disassembled(layout);
    WholeIgnoresFocus(layout, layout.(activePaneId := pane), TreeOf(layout));
    assert FrameInOrder(layout.(activePaneId := pane));
    Assembled(layout.(activePaneId := pane), TreeOf(layout));
  }

  lemma {:induction false} MoveInsideSucceedsExactly(state: State, transfer: Transfer)
    requires ValidState(state) && transfer.kind.MovePane? && transfer.sourceWorkspaceId != "" && transfer.targetWorkspaceId != ""
    requires var layouts := state.terminalWorkspaces;
      var s, t := FindLayout(layouts, transfer.sourceWorkspaceId), FindLayout(layouts, transfer.targetWorkspaceId);
      s < |layouts| && s == t
    ensures var layouts := state.terminalWorkspaces;
      var s := FindLayout(layouts, transfer.sourceWorkspaceId);
      TransferTerminalWorkspace(state, transfer).Some?
      <==> MovePossible(layouts[s], transfer.sourcePaneId, transfer.targetPaneId, transfer.splitNodeId)
  {
    hide ValidLayout, ValidState, IsLeaf, UniqueLayoutIds, MovePossible, MoveTerminalPane, TransferTerminalWorkspace, IntentCount, FindLayout;
    var layouts := state.terminalWorkspaces;
    var s := FindLayout(layouts, transfer.sourceWorkspaceId);
    var pane, target, splitId := transfer.sourcePaneId, transfer.targetPaneId, transfer.splitNodeId;
    ValidParts(state);
    StateBounds(state);
    MoveSucceedsExactly(layouts[s], pane, target, splitId, transfer.orientation, transfer.placeAfter);
    TransferIs(state, transfer);
    if MovePossible(layouts[s], pane, target, splitId) {
      var moved := MoveTerminalPane(layouts[s], pane, target, splitId, transfer.orientation, transfer.placeAfter).value;
      MoveKeepsCount(layouts[s], pane, target, splitId, transfer.orientation, transfer.placeAfter);
      FocusedIsValid(moved, pane);
      UpdatedTabs(layouts, s, moved.(activePaneId := pane));
      IntentCountUpdate(layouts, s, moved.(activePaneId := pane));
      PublishedIfInOrder(state, transfer);
    }
  }

  // ----- taking a pane out -----

  lemma {:induction false} ClosedCount(layout: Layout, pane: string)
    requires CloseTerminalPane(layout, pane).Some?
    ensures |CloseTerminalPane(layout, pane).value.restoreIntents| == |layout.restoreIntents| - 1
  {
    hide ValidLayout, Promote, EraseNodes, FindParent, FirstLeaf, EraseIntents, IntentIds;
    PaneParts(layout, pane);
    var k := FindNode(layout.nodes, pane);
    OneIntentLess(layout.restoreIntents, layout.nodes[k].restoreIntentId);
    assert UniqueIntentIds(layout.restoreIntents) by {
      Disassembled(layout);
    }
    ClosedIntents(layout, pane);
  }

  lemma {:induction false} ClosedIntents(layout: Layout, pane: string)
    requires CloseTerminalPane(layout, pane).Some?
    ensures FindNode(layout.nodes, pane) < |layout.nodes|
    ensures CloseTerminalPane(layout, pane).value.restoreIntents
         == EraseIntents(layout.restoreIntents, layout.nodes[FindNode(layout.nodes, pane)].restoreIntentId)
  {
    hide ValidLayout, EraseNodes, FindParent, FirstLeaf, EraseIntents;
  }

  lemma {:induction false} OneIntentLess(intents: seq<Intent>, id: string)
    requires FindIntent(intents, id) < |intents|
    ensures UniqueIntentIds(intents) ==> |EraseIntents(intents, id)| == |intents| - 1
  {
    hide EraseIntents, UniqueIntentIds;
    if UniqueIntentIds(intents) {
      ErasedIntents(intents, id);
      ErasedIntentIds(intents, id);
      IntentListed(intents, id);
      IntentIdsBound(intents);
      IntentIdsBound(EraseIntents(intents, id));
      assert IntentIds(intents) == IntentIds(EraseIntents(intents, id)) + {id};
    }
  }

  /** The other tabs without the pane: still in order, with the pane's intent gone. */
  lemma {:induction false} RemainingTabs(layouts: seq<Layout>, s: nat, transfer: Transfer, id: string)
    requires UniqueLayoutIds(layouts) && s < |layouts| && layouts[s].id == transfer.sourceWorkspaceId
    requires IsLeaf(layouts[s].nodes, transfer.sourcePaneId) && id != transfer.sourceWorkspaceId
    requires forall j :: 0 <= j < |layouts| ==> ValidLayout(layouts[j])
    ensures WithoutPane(layouts, s, transfer).Some?
    ensures var remaining := WithoutPane(layouts, s, transfer).value;
      && UniqueLayoutIds(remaining) && (forall j :: 0 <= j < |remaining| ==> ValidLayout(remaining[j]))
      && (FindLayout(layouts, id) < |layouts| ==>
           FindLayout(remaining, id) < |remaining| && remaining[FindLayout(remaining, id)] == layouts[FindLayout(layouts, id)])
      && (FindLayout(layouts, id) == |layouts| ==> FindLayout(remaining, id) == |remaining|)
      && |remaining| == (if |layouts[s].restoreIntents| > 1 then |layouts| else |layouts| - 1)
      && IntentCount(remaining) + 1 == IntentCount(layouts)
  {
    hide ValidLayout, IsLeaf, UniqueLayoutIds, IntentCount, FindLayout, EraseLayout, CloseTerminalPane;
    var pane := transfer.sourcePaneId;
    CloseSucceedsExactly(layouts[s], pane);
    if |layouts[s].restoreIntents| > 1 {
      var closed := CloseTerminalPane(layouts[s], pane).value;
      ClosedIsValid(layouts[s], pane);
      ClosedCount(layouts[s], pane);
      UpdatedTabs(layouts, s, closed);
      IntentCountUpdate(layouts, s, closed);
      assert FindLayout(layouts, id) < |layouts| ==> FindLayout(layouts, id) != s;
    } else {
      SomeIntent(layouts[s]);
      ErasedTabs(layouts, s, id);
      IntentCountErase(layouts, s);
    }
  }

  lemma {:induction false} ExtractedParts(source: Layout, transfer: Transfer)
    requires ValidLayout(source) && IsLeaf(source.nodes, transfer.sourcePaneId)
    ensures IsInsertable(Extracted(source, transfer), Tip(transfer.sourcePaneId))
    ensures |Extracted(source, transfer).restoreIntents| == 1 && Extracted(source, transfer).id == transfer.targetWorkspaceId
    ensures ValidLayout(Extracted(source, transfer)) <==> BoundedText(transfer.targetWorkspaceId, 128, false)
  {
    hide ValidLayout, BoundedText, FindIntent, IntentOf;
    var pane := transfer.sourcePaneId;
    var k := FindNode(source.nodes, pane);
    PaneParts(source, pane);
    LeafInTree(source, pane);
    var extracted := Extracted(source, transfer);
    var node := extracted.nodes[0];
    OneLeaf(node);
    OneIntent(IntentOf(source, k));
    TipIds(pane);
    DistinctTip(pane);
    LeafGrows(extracted.nodes, pane);
    SingleIsInsertable(extracted, node);
    if ValidLayout(extracted) {
      Disassembled(extracted);
    }
    if BoundedText(transfer.targetWorkspaceId, 128, false) {
      SingleFrame(extracted, IntentOf(source, k));
      Assembled(extracted, Tip(pane));
    }
  }

  lemma {:induction false} SingleIsInsertable(layout: Layout, node: Node)
    requires layout.nodes == [node] && |layout.restoreIntents| == 1 && node.kind.Leaf? && node.firstChildId == "" && node.secondChildId == ""
    requires layout.restoreIntents[0].id == node.restoreIntentId && ValidIntent(layout.restoreIntents[0]) && NodeFits(node, {node.restoreIntentId})
    requires layout.activePaneId == node.id && layout.rootNodeId == node.id && Grows(layout.nodes, Tip(node.id))
    requires Elements(Ids(Tip(node.id))) == {node.id} && Distinct(Ids(Tip(node.id)))
    requires NodeIds([node]) == {node.id} && LeafRefs([node]) == {(node.id, node.restoreIntentId)} && UniqueNodeIds([node])
    requires IntentIds(layout.restoreIntents) == {node.restoreIntentId}
    ensures IsInsertable(layout, Tip(node.id))
  {
    hide BoundedText, ValidIntent, Elements, Distinct, NodeIds, LeafRefs, IntentIds, Ids;
    assert (node.id, node.restoreIntentId) in LeafRefs(layout.nodes);
  }

  lemma {:induction false} SingleFrame(layout: Layout, intent: Intent)
    requires BoundedText(layout.id, 128, false) && |layout.nodes| == 1 && layout.restoreIntents == [intent] && ValidIntent(intent)
    requires layout.title == intent.title && layout.manualTitle == intent.manualTitle && layout.windowId == "main" && layout.returnWorkspaceId == ""
    ensures FrameInOrder(layout)
  {
  }

  lemma {:induction false} MoveAcrossSucceedsExactly(state: State, transfer: Transfer)
    requires ValidState(state) && transfer.kind.MovePane? && transfer.sourceWorkspaceId != "" && transfer.targetWorkspaceId != ""
    requires var layouts := state.terminalWorkspaces;
      var s, t := FindLayout(layouts, transfer.sourceWorkspaceId), FindLayout(layouts, transfer.targetWorkspaceId);
      s < |layouts| && t < |layouts| && s != t && ValidLayout(layouts[s]) && IsLeaf(layouts[s].nodes, transfer.sourcePaneId)
    ensures var layouts := state.terminalWorkspaces;
      var s, t := FindLayout(layouts, transfer.sourceWorkspaceId), FindLayout(layouts, transfer.targetWorkspaceId);
      TransferTerminalWorkspace(state, transfer).Some? <==> InsertPossible(layouts[t], Extracted(layouts[s], transfer), transfer)
  {
    hide ValidLayout, ValidState, IsLeaf, UniqueLayoutIds, InsertPossible, InsertTree, TransferTerminalWorkspace, IntentCount, FindLayout, WithoutPane, IsInsertable, Extracted;
    var layouts := state.terminalWorkspaces;
    var s, t := FindLayout(layouts, transfer.sourceWorkspaceId), FindLayout(layouts, transfer.targetWorkspaceId);
    ValidParts(state);
    StateBounds(state);
    RemainingTabs(layouts, s, transfer, transfer.targetWorkspaceId);
    var remaining, extracted := WithoutPane(layouts, s, transfer).value, Extracted(layouts[s], transfer);
    var target := FindLayout(remaining, transfer.targetWorkspaceId);
    ExtractedParts(layouts[s], transfer);
    InsertSucceedsExactly(layouts[t], extracted, Tip(transfer.sourcePaneId), transfer);
    TransferIs(state, transfer);
    if InsertTree(layouts[t], extracted, transfer).Some? {
      var grown := InsertTree(layouts[t], extracted, transfer).value;
      GrownKeeps(layouts[t], extracted, transfer);
      UpdatedTabs(remaining, target, grown);
      IntentCountUpdate(remaining, target, grown);
      PublishedIfInOrder(state, transfer);
    }
  }

  lemma {:induction false} ExtractSucceedsExactly(state: State, transfer: Transfer)
    requires ValidState(state) && transfer.kind.ExtractPane? && transfer.sourceWorkspaceId != "" && transfer.targetWorkspaceId != ""
    requires var layouts := state.terminalWorkspaces;
      var s, t := FindLayout(layouts, transfer.sourceWorkspaceId), FindLayout(layouts, transfer.targetWorkspaceId);
      s < |layouts| && t == |layouts| && ValidLayout(layouts[s]) && IsLeaf(layouts[s].nodes, transfer.sourcePaneId)
    ensures var layouts := state.terminalWorkspaces;
      var s := FindLayout(layouts, transfer.sourceWorkspaceId);
      TransferTerminalWorkspace(state, transfer).Some?
      <==> BoundedText(transfer.targetWorkspaceId, 128, false) && (|layouts[s].restoreIntents| > 1 ==> |layouts| < MAXIMUM_TERMINAL_WORKSPACES)
  {
    hide ValidLayout, ValidState, IsLeaf, UniqueLayoutIds, TransferTerminalWorkspace, IntentCount, FindLayout, WithoutPane, IsInsertable, Extracted, BoundedText;
    var layouts := state.terminalWorkspaces;
    var s := FindLayout(layouts, transfer.sourceWorkspaceId);
    ValidParts(state);
    StateBounds(state);
    RemainingTabs(layouts, s, transfer, transfer.targetWorkspaceId);
    var remaining, extracted := WithoutPane(layouts, s, transfer).value, Extracted(layouts[s], transfer);
    ExtractedParts(layouts[s], transfer);
    TransferIs(state, transfer);
    var after := remaining + [extracted];
    assert ApplyTransfer(state, transfer) == Some(state.(terminalWorkspaces := after));
    if TransferTerminalWorkspace(state, transfer).Some? {
      var candidate := state.(terminalWorkspaces := after, activeTerminalWorkspaceId := transfer.targetWorkspaceId);
      ValidParts(candidate);
      StateBounds(candidate);
      assert after[|remaining|] == extracted;
    }
    if ValidLayout(extracted) && |after| <= MAXIMUM_TERMINAL_WORKSPACES {
      AppendedTabs(remaining, extracted);
      IntentCountAppend(remaining, extracted);
      PublishedIfInOrder(state, transfer);
    }
  }

  // ----- all kinds -----

  /** A transfer succeeds exactly if the request is possible in the state. */
  lemma {:induction false} TransferSucceedsExactly(state: State, transfer: Transfer)
    ensures TransferTerminalWorkspace(state, transfer).Some? <==> TransferPossible(state, transfer)
  {
    hide ValidLayout, ValidState, IsLeaf, InsertTree, TransferTerminalWorkspace, FindLayout, WithoutPane, Extracted, SwapAcross, SwapInside, MoveTerminalPane, MovePossible, InsertPossible, SwapPossible;
    if TransferTerminalWorkspace(state, transfer).Some? {
      SuccessNeeds(state, transfer);
    }
    var layouts := state.terminalWorkspaces;
    var s, t := FindLayout(layouts, transfer.sourceWorkspaceId), FindLayout(layouts, transfer.targetWorkspaceId);
    if ValidState(state) && transfer.sourceWorkspaceId != "" && transfer.targetWorkspaceId != "" && s < |layouts| {
      ValidParts(state);
      match transfer.kind {
        case SwapPanes =>
          if t < |layouts| && IsLeaf(layouts[s].nodes, transfer.sourcePaneId) && IsLeaf(layouts[t].nodes, transfer.targetPaneId) {
            if s == t {
              SwapInsideSucceeds(state, transfer);
            } else {
              SwapAcrossSucceedsExactly(state, transfer);
            }
          }
        case MergeWorkspace =>
          if t < |layouts| && s != t {
            MergeSucceedsExactly(state, transfer);
          }
        case MovePane =>
          if s == t {
            MoveInsideSucceedsExactly(state, transfer);
          } else if t < |layouts| && IsLeaf(layouts[s].nodes, transfer.sourcePaneId) {
            MoveAcrossSucceedsExactly(state, transfer);
          }
        case ExtractPane =>
          if t == |layouts| && IsLeaf(layouts[s].nodes, transfer.sourcePaneId) {
            ExtractSucceedsExactly(state, transfer);
          }
      }
    }
  }

  /** The tests that come first. */
  lemma {:induction false} SuccessNeeds(state: State, transfer: Transfer)
    requires TransferTerminalWorkspace(state, transfer).Some?
    ensures ValidState(state) && transfer.sourceWorkspaceId != "" && transfer.targetWorkspaceId != ""
    ensures var layouts := state.terminalWorkspaces;
      var s, t := FindLayout(layouts, transfer.sourceWorkspaceId), FindLayout(layouts, transfer.targetWorkspaceId);
      && s < |layouts|
      && (transfer.kind.SwapPanes? ==>
           t < |layouts| && IsLeaf(layouts[s].nodes, transfer.sourcePaneId) && IsLeaf(layouts[t].nodes, transfer.targetPaneId))
      && (transfer.kind.MergeWorkspace? ==> t < |layouts| && s != t)
      && (transfer.kind.MovePane? && s != t ==> t < |layouts| && IsLeaf(layouts[s].nodes, transfer.sourcePaneId))
      && (transfer.kind.ExtractPane? ==> t == |layouts| && IsLeaf(layouts[s].nodes, transfer.sourcePaneId))
  {
    hide ValidLayout, ValidState, IsLeaf, InsertTree, WithoutPane, Extracted, MoveTerminalPane, FindLayout, UniqueLayoutIds;
  }
}
