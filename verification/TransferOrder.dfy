/**
 What a transfer does to the order of the panes in every tab, whichever tabs it involves.
 */
module TransferOrder {
  import opened WorkspaceState
  import opened PaneTree
  import opened WorkspaceTransfer
  import opened PaneOrder

  /** The panes of the tab with this id from left to right; none if there is no such tab. */
  ghost function OrderIn(layouts: seq<Layout>, id: string): seq<string> {
    var k := FindLayout(layouts, id);
    if k < |layouts| && ValidLayout(layouts[k]) then Order(layouts[k]) else []
  }

  /** The order that a transfer promises for tab `id`. */
  ghost function Arranged(layouts: seq<Layout>, transfer: Transfer, id: string): seq<string> {
    var order := OrderIn(layouts, id);
    var isSource, isTarget := id == transfer.sourceWorkspaceId, id == transfer.targetWorkspaceId;
    var pane, at := transfer.sourcePaneId, transfer.targetPaneId;
    match transfer.kind
    case SwapPanes =>
      if isSource && isTarget then Renamed(order, Exchanging(pane, at))
      else if isSource then Renamed(order, Replacing(pane, at))
      else if isTarget then Renamed(order, Replacing(at, pane))
      else order
    case MergeWorkspace =>
      if isSource then []
      else if isTarget then Spliced(order, at, Beside(at, OrderIn(layouts, transfer.sourceWorkspaceId), transfer.placeAfter))
      else order
    case MovePane =>
      var left := if isSource then Without(order, pane) else order;
      if isTarget then Spliced(left, at, Beside(at, [pane], transfer.placeAfter)) else left
    case ExtractPane =>
      if isTarget then [pane] else if isSource then Without(order, pane) else order
  }

  // ----- tabs in the list -----

  lemma {:induction false} FindUnique(layouts: seq<Layout>, k: nat)
    requires UniqueLayoutIds(layouts) && k < |layouts|
    ensures FindLayout(layouts, layouts[k].id) == k
  {
    assert FindLayout(layouts, layouts[k].id) <= k;
  }

  lemma {:induction false} OrderInUpdate(layouts: seq<Layout>, k: nat, layout: Layout, id: string)
    requires UniqueLayoutIds(layouts) && k < |layouts| && layout.id == layouts[k].id && ValidLayout(layout)
    ensures OrderIn(layouts[k := layout], id) == if id == layout.id then Order(layout) else OrderIn(layouts, id)
  {
    hide ValidLayout, Order;
    var after := layouts[k := layout];
    var i, j := FindLayout(layouts, id), FindLayout(after, id);
    assert i < |layouts| ==> after[i].id == id;
    assert j < |layouts| ==> layouts[j].id == id;
    assert i == j;
    FindUnique(layouts, k);
  }

  lemma {:induction false} OrderInErased(layouts: seq<Layout>, gone: string, id: string)
    ensures OrderIn(EraseLayout(layouts, gone), id) == if id == gone then [] else OrderIn(layouts, id)
  {
    hide ValidLayout, Order;
    if layouts == [] {
      return;
    }
    var rest := EraseLayout(layouts[1..], gone);
    assert EraseLayout(layouts, gone) == if layouts[0].id == gone then rest else [layouts[0]] + rest;
    hide EraseLayout;
    OrderInErased(layouts[1..], gone, id);
    OrderInCons(layouts[0], layouts[1..], id);
    OrderInCons(layouts[0], rest, id);
    assert layouts == [layouts[0]] + layouts[1..];
  }

  lemma {:induction false} OrderInCons(layout: Layout, rest: seq<Layout>, id: string)
    ensures OrderIn([layout] + rest, id)
         == if id != layout.id then OrderIn(rest, id) else if ValidLayout(layout) then Order(layout) else []
  {
    hide ValidLayout, Order;
    assert ([layout] + rest)[1..] == rest;
  }

  lemma {:induction false} OrderInAppended(layouts: seq<Layout>, layout: Layout, id: string)
    requires FindLayout(layouts, layout.id) == |layouts| && ValidLayout(layout)
    ensures OrderIn(layouts + [layout], id) == if id == layout.id then Order(layout) else OrderIn(layouts, id)
  {
    hide ValidLayout, Order;
    var all := layouts + [layout];
    var i, j := FindLayout(layouts, id), FindLayout(all, id);
    assert all[|layouts|] == layout;
    assert i < |layouts| ==> all[i].id == id;
    assert j < |layouts| ==> layouts[j].id == id;
  }

  /** The active pane does not matter for the order. */
  lemma {:induction false} SameOrder(a: Layout, b: Layout)
    requires ValidLayout(a) && ValidLayout(b) && a.nodes == b.nodes && a.rootNodeId == b.rootNodeId
    ensures Order(a) == Order(b)
  {
    hide ValidLayout;
    IsTheTree(b, TreeOf(a));
  }

  // ----- a pane on its own -----

  lemma {:induction false} ExtractedOrder(source: Layout, transfer: Transfer)
    requires ValidLayout(source) && IsLeaf(source.nodes, transfer.sourcePaneId)
    ensures Grows(Extracted(source, transfer).nodes, Tip(transfer.sourcePaneId))
    ensures ValidLayout(Extracted(source, transfer)) ==> Order(Extracted(source, transfer)) == [transfer.sourcePaneId]
  {
    var extracted := Extracted(source, transfer);
    assert Grows(extracted.nodes, Tip(transfer.sourcePaneId));
    if ValidLayout(extracted) {
      IsTheTree(extracted, Tip(transfer.sourcePaneId));
    }
  }

  lemma {:induction false} PanesAreLeaves(nodes: seq<Node>, tree: Tree)
    requires Grows(nodes, tree)
    ensures Panes(tree) != [] && forall x :: x in Panes(tree) ==> IsLeaf(nodes, x)
  {
    hide FindNode;
    if tree.Fork? {
      PanesAreLeaves(nodes, tree.first);
      PanesAreLeaves(nodes, tree.second);
    }
  }

  /** A tab with a single restore intent shows a single pane. */
  lemma {:induction false} SinglePaneOrder(layout: Layout, pane: string)
    requires ValidLayout(layout) && IsLeaf(layout.nodes, pane) && |layout.restoreIntents| == 1
    ensures Order(layout) == [pane]
  {
    hide ValidLayout, HeaderInOrder, Elements, Distinct, FindIntent;
    var tree := TreeOf(layout);
    ValidIsWellFormed(layout);
    PanesAreLeaves(layout.nodes, tree);
    DistinctPanes(tree);
    var at := FindNode(layout.nodes, pane);
    forall x | x in Panes(tree)
      ensures x == pane
    {
      var k := FindNode(layout.nodes, x);
      assert NodeInOrder(layout, layout.nodes[k]) && NodeInOrder(layout, layout.nodes[at]);
      assert layout.nodes[k].restoreIntentId == layout.restoreIntents[0].id == layout.nodes[at].restoreIntentId;
      assert k == at;
    }
    AllTheSame(Panes(tree), pane);
  }

  lemma {:induction false} AllTheSame(s: seq<string>, x: string)
    requires s != [] && Distinct(s) && forall y :: y in s ==> y == x
    ensures s == [x]
  {
    assert s[0] in s;
    assert Elements(s) == {x};
    DistinctSize(s);
  }

  /** After the pane has left, whether or not its tab goes with it. */
  lemma {:induction false} OrderWithoutPane(layouts: seq<Layout>, s: nat, transfer: Transfer, id: string)
    requires s < |layouts| && UniqueLayoutIds(layouts) && layouts[s].id == transfer.sourceWorkspaceId
    requires ValidLayout(layouts[s]) && IsLeaf(layouts[s].nodes, transfer.sourcePaneId)
    requires WithoutPane(layouts, s, transfer).Some?
    ensures OrderIn(WithoutPane(layouts, s, transfer).value, id)
         == if id == transfer.sourceWorkspaceId then Without(OrderIn(layouts, id), transfer.sourcePaneId) else OrderIn(layouts, id)
  {
    var pane := transfer.sourcePaneId;
    hide ValidLayout, Order, CloseTerminalPane;
    FindUnique(layouts, s);
    if |layouts[s].restoreIntents| > 1 {
      CloseRemovesFromOrder(layouts[s], pane);
      var closed := CloseTerminalPane(layouts[s], pane).value;
      assert closed.id == layouts[s].id by {
        CloseKeepsId(layouts[s], pane);
      }
      OrderInUpdate(layouts, s, closed, id);
    } else {
      SomeIntent(layouts[s]);
      SinglePaneOrder(layouts[s], pane);
      assert Without([pane], pane) == [];
      OrderInErased(layouts, layouts[s].id, id);
    }
  }

  lemma {:induction false} SomeIntent(layout: Layout)
    requires ValidLayout(layout)
    ensures |layout.restoreIntents| > 0
  {
  }

  lemma {:induction false} CloseKeepsId(layout: Layout, pane: string)
    requires CloseTerminalPane(layout, pane).Some?
    ensures CloseTerminalPane(layout, pane).value.id == layout.id
  {
    hide ValidLayout;
  }

  // ----- the transfers -----

  lemma {:induction false} ValidParts(state: State)
    requires ValidState(state)
    ensures UniqueLayoutIds(state.terminalWorkspaces)
    ensures forall k :: 0 <= k < |state.terminalWorkspaces| ==> ValidLayout(state.terminalWorkspaces[k])
  {
  }

  lemma {:induction false} SwapArranges(state: State, transfer: Transfer, id: string)
    requires TransferTerminalWorkspace(state, transfer).Some? && transfer.kind.SwapPanes?
    ensures OrderIn(TransferTerminalWorkspace(state, transfer).value.terminalWorkspaces, id) == Arranged(state.terminalWorkspaces, transfer, id)
  {
    hide ValidLayout, Order, ValidState, Substitute, ExchangeChildren, FindIntent, UniqueLayoutIds;
    var layouts, after := state.terminalWorkspaces, TransferTerminalWorkspace(state, transfer).value.terminalWorkspaces;
    ValidParts(state);
    ValidParts(TransferTerminalWorkspace(state, transfer).value);
    var s, t := FindLayout(layouts, transfer.sourceWorkspaceId), FindLayout(layouts, transfer.targetWorkspaceId);
    if s == t {
      var swapped := SwapInside(layouts[s], transfer).value;
      assert after[s] == swapped;
      ExchangedOrder(layouts[s], transfer);
      OrderInUpdate(layouts, s, swapped, id);
    } else {
      SwapAcrossArranges(state, s, t, transfer, after, id);
    }
  }

  lemma {:induction false} SwapAcrossArranges(state: State, s: nat, t: nat, transfer: Transfer, after: seq<Layout>, id: string)
    requires ValidState(state) && s < |state.terminalWorkspaces| && t < |state.terminalWorkspaces| && s != t
    requires s == FindLayout(state.terminalWorkspaces, transfer.sourceWorkspaceId) && t == FindLayout(state.terminalWorkspaces, transfer.targetWorkspaceId)
    requires SwapAcross(state, s, t, transfer).Some? && SwapAcross(state, s, t, transfer).value.terminalWorkspaces == after
    requires forall k :: 0 <= k < |after| ==> ValidLayout(after[k])
    ensures OrderIn(after, id)
         == if id == transfer.sourceWorkspaceId then Renamed(OrderIn(state.terminalWorkspaces, id), Replacing(transfer.sourcePaneId, transfer.targetPaneId))
            else if id == transfer.targetWorkspaceId then Renamed(OrderIn(state.terminalWorkspaces, id), Replacing(transfer.targetPaneId, transfer.sourcePaneId))
            else OrderIn(state.terminalWorkspaces, id)
  {
    hide ValidLayout, Order, ValidState, Substitute, FindIntent;
    ValidParts(state);
    var layouts := state.terminalWorkspaces;
    var source, target := layouts[s], layouts[t];
    var a, b := FindNode(source.nodes, transfer.sourcePaneId), FindNode(target.nodes, transfer.targetPaneId);
    LeafHasIntent(source, a);
    LeafHasIntent(target, b);
    var source', target' := SwappedSource(source, target, transfer), SwappedTarget(source, target, transfer);
    assert after == layouts[s := source'][t := target'] && after[s] == source' && after[t] == target';
    SubstituteRenames(source, a, target.nodes[b], IntentOf(target, b), source');
    SubstituteRenames(target, b, source.nodes[a], IntentOf(source, a), target');
    SubstituteKeepsId(source, a, target.nodes[b], IntentOf(target, b));
    SubstituteKeepsId(target, b, source.nodes[a], IntentOf(source, a));
    hide SwappedSource, SwappedTarget;
    assert UniqueLayoutIds(layouts[s := source']);
    OrderInUpdate(layouts, s, source', id);
    OrderInUpdate(layouts[s := source'], t, target', id);
  }

  lemma {:induction false} SubstituteKeepsId(layout: Layout, mine: nat, other: Node, otherIntent: Intent)
    requires mine < |layout.nodes|
    requires FindIntent(layout.restoreIntents, layout.nodes[mine].restoreIntentId) < |layout.restoreIntents|
    ensures Substitute(layout, mine, other, otherIntent).id == layout.id
  {
  }

  lemma {:induction false} MergeArranges(state: State, transfer: Transfer, id: string)
    requires TransferTerminalWorkspace(state, transfer).Some? && transfer.kind.MergeWorkspace?
    ensures OrderIn(TransferTerminalWorkspace(state, transfer).value.terminalWorkspaces, id) == Arranged(state.terminalWorkspaces, transfer, id)
  {
    hide ValidLayout, Order, ValidState, InsertTree, UniqueLayoutIds;
    var layouts := state.terminalWorkspaces;
    ValidParts(state);
    var s, t := FindLayout(layouts, transfer.sourceWorkspaceId), FindLayout(layouts, transfer.targetWorkspaceId);
    InsertJoinsOrder(layouts[t], layouts[s], TreeOf(layouts[s]), transfer);
    var grown := InsertTree(layouts[t], layouts[s], transfer).value;
    InsertKeepsId(layouts[t], layouts[s], transfer);
    OrderInUpdate(layouts, t, grown, id);
    OrderInErased(layouts[t := grown], transfer.sourceWorkspaceId, id);
    OrderIsPanes(layouts[s]);
  }

  lemma {:induction false} OrderIsPanes(layout: Layout)
    requires ValidLayout(layout)
    ensures Order(layout) == Panes(TreeOf(layout))
  {
  }

  lemma {:induction false} InsertKeepsId(target: Layout, source: Layout, transfer: Transfer)
    requires InsertTree(target, source, transfer).Some?
    ensures InsertTree(target, source, transfer).value.id == target.id
  {
    hide ValidLayout;
  }

  lemma {:induction false} MoveArranges(state: State, transfer: Transfer, id: string)
    requires TransferTerminalWorkspace(state, transfer).Some? && transfer.kind.MovePane?
    ensures OrderIn(TransferTerminalWorkspace(state, transfer).value.terminalWorkspaces, id) == Arranged(state.terminalWorkspaces, transfer, id)
  {
    hide ValidLayout, Order, ValidState, InsertTree, UniqueLayoutIds, MoveTerminalPane, WithoutPane, Extracted;
    var layouts, after := state.terminalWorkspaces, TransferTerminalWorkspace(state, transfer).value.terminalWorkspaces;
    var pane, at := transfer.sourcePaneId, transfer.targetPaneId;
    ValidParts(state);
    ValidParts(TransferTerminalWorkspace(state, transfer).value);
    var s, t := FindLayout(layouts, transfer.sourceWorkspaceId), FindLayout(layouts, transfer.targetWorkspaceId);
    if s == t {
      MoveRearrangesOrder(layouts[s], pane, at, transfer.splitNodeId, transfer.orientation, transfer.placeAfter);
      var moved := MoveTerminalPane(layouts[s], pane, at, transfer.splitNodeId, transfer.orientation, transfer.placeAfter).value;
      var active := moved.(activePaneId := pane);
      assert after[s] == active;
      SameOrder(moved, active);
      MoveKeepsId(layouts[s], pane, at, transfer.splitNodeId, transfer.orientation, transfer.placeAfter);
      OrderInUpdate(layouts, s, active, id);
    } else {
      MoveAcrossArranges(layouts, s, transfer, after, id);
    }
  }

  lemma {:induction false} MoveKeepsId(layout: Layout, pane: string, target: string, splitId: string, orientation: Orientation, placeAfter: bool)
    requires MoveTerminalPane(layout, pane, target, splitId, orientation, placeAfter).Some?
    ensures var moved := MoveTerminalPane(layout, pane, target, splitId, orientation, placeAfter).value;
      moved.id == layout.id && moved.restoreIntents == layout.restoreIntents
  {
    hide ValidLayout, EraseNodes, FindParent, FindNode, BoundedText;
  }

  lemma {:induction false} MoveAcrossArranges(layouts: seq<Layout>, s: nat, transfer: Transfer, after: seq<Layout>, id: string)
    requires s < |layouts| && UniqueLayoutIds(layouts) && layouts[s].id == transfer.sourceWorkspaceId
    requires (forall k :: 0 <= k < |layouts| ==> ValidLayout(layouts[k])) && IsLeaf(layouts[s].nodes, transfer.sourcePaneId)
    requires WithoutPane(layouts, s, transfer).Some?
    requires var remaining := WithoutPane(layouts, s, transfer).value;
      var target := FindLayout(remaining, transfer.targetWorkspaceId);
      target < |remaining| && InsertTree(remaining[target], Extracted(layouts[s], transfer), transfer).Some?
      && after == remaining[target := InsertTree(remaining[target], Extracted(layouts[s], transfer), transfer).value]
    ensures OrderIn(after, id)
         == var left := if id == transfer.sourceWorkspaceId then Without(OrderIn(layouts, id), transfer.sourcePaneId) else OrderIn(layouts, id);
            if id == transfer.targetWorkspaceId
            then Spliced(left, transfer.targetPaneId, Beside(transfer.targetPaneId, [transfer.sourcePaneId], transfer.placeAfter)) else left
  {
    hide ValidLayout, Order, InsertTree, UniqueLayoutIds, WithoutPane, Extracted;
    var remaining := WithoutPane(layouts, s, transfer).value;
    var target := FindLayout(remaining, transfer.targetWorkspaceId);
    var extracted := Extracted(layouts[s], transfer);
    RemainingValid(layouts, s, transfer);
    OrderWithoutPane(layouts, s, transfer, id);
    ExtractedOrder(layouts[s], transfer);
    ExtractedRoot(layouts[s], transfer);
    InsertJoinsOrder(remaining[target], extracted, Tip(transfer.sourcePaneId), transfer);
    InsertKeepsId(remaining[target], extracted, transfer);
    OrderInUpdate(remaining, target, InsertTree(remaining[target], extracted, transfer).value, id);
  }

  lemma {:induction false} ExtractedRoot(source: Layout, transfer: Transfer)
    requires ValidLayout(source) && IsLeaf(source.nodes, transfer.sourcePaneId)
    ensures Extracted(source, transfer).rootNodeId == transfer.sourcePaneId && Extracted(source, transfer).id == transfer.targetWorkspaceId
  {
    hide ValidLayout;
  }

  lemma {:induction false} RemainingValid(layouts: seq<Layout>, s: nat, transfer: Transfer)
    requires s < |layouts| && UniqueLayoutIds(layouts) && layouts[s].id == transfer.sourceWorkspaceId
    requires forall k :: 0 <= k < |layouts| ==> ValidLayout(layouts[k])
    requires WithoutPane(layouts, s, transfer).Some?
    ensures var remaining := WithoutPane(layouts, s, transfer).value;
      UniqueLayoutIds(remaining) && forall k :: 0 <= k < |remaining| ==> ValidLayout(remaining[k])
  {
    hide ValidLayout, CloseTerminalPane;
    if |layouts[s].restoreIntents| > 1 {
      ClosedIsValid(layouts[s], transfer.sourcePaneId);
    } else {
      EraseLayoutIsRemove(layouts, s);
    }
  }

  lemma {:induction false} ClosedIsValid(layout: Layout, pane: string)
    requires CloseTerminalPane(layout, pane).Some?
    ensures ValidLayout(CloseTerminalPane(layout, pane).value) && CloseTerminalPane(layout, pane).value.id == layout.id
  {
    hide ValidLayout;
  }

  lemma {:induction false} ExtractArranges(state: State, transfer: Transfer, id: string)
    requires TransferTerminalWorkspace(state, transfer).Some? && transfer.kind.ExtractPane?
    ensures OrderIn(TransferTerminalWorkspace(state, transfer).value.terminalWorkspaces, id) == Arranged(state.terminalWorkspaces, transfer, id)
  {
    hide ValidLayout, Order, ValidState, UniqueLayoutIds, WithoutPane, Extracted;
    var layouts, after := state.terminalWorkspaces, TransferTerminalWorkspace(state, transfer).value.terminalWorkspaces;
    ValidParts(state);
    ValidParts(TransferTerminalWorkspace(state, transfer).value);
    var s := FindLayout(layouts, transfer.sourceWorkspaceId);
    var remaining, extracted := WithoutPane(layouts, s, transfer).value, Extracted(layouts[s], transfer);
    assert after == remaining + [extracted] && after[|remaining|] == extracted;
    OrderWithoutPane(layouts, s, transfer, id);
    ExtractedOrder(layouts[s], transfer);
    ExtractedRoot(layouts[s], transfer);
    AppendedIsNew(after);
    assert after[..|after| - 1] == remaining;
    OrderInAppended(remaining, extracted, id);
  }

  lemma {:induction false} AppendedIsNew(layouts: seq<Layout>)
    requires UniqueLayoutIds(layouts) && layouts != []
    ensures FindLayout(layouts[..|layouts| - 1], layouts[|layouts| - 1].id) == |layouts| - 1
  {
  }

  ghost predicate AsRequested(before: seq<Layout>, transfer: Transfer, after: seq<Layout>) {
    forall id :: OrderIn(after, id) == Arranged(before, transfer, id)
  }

  /**
   A successful transfer gives every tab exactly the promised order of panes: the panes that take
   part come out where the request says, and all others stay where they are.
   */
  lemma {:induction false} TransferArranges(state: State, transfer: Transfer, after: State)
    requires TransferTerminalWorkspace(state, transfer) == Some(after)
    ensures AsRequested(state.terminalWorkspaces, transfer, after.terminalWorkspaces)
  {
    hide TransferTerminalWorkspace, Arranged, OrderIn;
    forall id: string
      ensures OrderIn(after.terminalWorkspaces, id) == Arranged(state.terminalWorkspaces, transfer, id)
    {
      TabArranged(state, transfer, id);
    }
  }

  lemma {:induction false} TabArranged(state: State, transfer: Transfer, id: string)
    requires TransferTerminalWorkspace(state, transfer).Some?
    ensures OrderIn(TransferTerminalWorkspace(state, transfer).value.terminalWorkspaces, id) == Arranged(state.terminalWorkspaces, transfer, id)
  {
    hide TransferTerminalWorkspace, Arranged, OrderIn;
    match transfer.kind {
      case SwapPanes => SwapArranges(state, transfer, id);
      case MergeWorkspace => MergeArranges(state, transfer, id);
      case MovePane => MoveArranges(state, transfer, id);
      case ExtractPane => ExtractArranges(state, transfer, id);
    }
  }

  // ----- the focus -----

  /** The active pane of the tab with this id. */
  function ActiveIn(layouts: seq<Layout>, id: string): string {
    var k := FindLayout(layouts, id);
    if k < |layouts| then layouts[k].activePaneId else ""
  }

  lemma {:induction false} ActiveInUpdate(layouts: seq<Layout>, k: nat, layout: Layout)
    requires UniqueLayoutIds(layouts) && k < |layouts| && layout.id == layouts[k].id
    ensures ActiveIn(layouts[k := layout], layout.id) == layout.activePaneId
  {
    FindUnique(layouts[k := layout], k);
  }

  lemma {:induction false} ActiveInErased(layouts: seq<Layout>, gone: string, id: string)
    requires id != gone
    ensures ActiveIn(EraseLayout(layouts, gone), id) == ActiveIn(layouts, id)
  {
    if layouts == [] {
      return;
    }
    ActiveInErased(layouts[1..], gone, id);
    var rest := EraseLayout(layouts[1..], gone);
    assert EraseLayout(layouts, gone) == if layouts[0].id == gone then rest else [layouts[0]] + rest;
    assert ([layouts[0]] + rest)[1..] == rest;
  }

  /** The pane that was transferred has the focus in the target tab; after a merge, the pane that had it in the source. */
  lemma {:induction false} TransferFocuses(state: State, transfer: Transfer)
    requires TransferTerminalWorkspace(state, transfer).Some?
    ensures ActiveIn(TransferTerminalWorkspace(state, transfer).value.terminalWorkspaces, transfer.targetWorkspaceId)
         == if transfer.kind.MergeWorkspace? then ActiveIn(state.terminalWorkspaces, transfer.sourceWorkspaceId) else transfer.sourcePaneId
  {
    hide ValidLayout, ValidState, UniqueLayoutIds, InsertTree, WithoutPane, Substitute, ActiveIn, MoveTerminalPane, Extracted, EraseLayout;
    var layouts, after := state.terminalWorkspaces, TransferTerminalWorkspace(state, transfer).value.terminalWorkspaces;
    ValidParts(state);
    ValidParts(TransferTerminalWorkspace(state, transfer).value);
    var s, t := FindLayout(layouts, transfer.sourceWorkspaceId), FindLayout(layouts, transfer.targetWorkspaceId);
    match transfer.kind {
      case SwapPanes =>
        if s == t {
          ActiveInUpdate(layouts, s, SwapInside(layouts[s], transfer).value);
        } else {
          SwapAcrossFocuses(state, s, t, transfer, after);
        }
      case MergeWorkspace =>
        var grown := InsertTree(layouts[t], layouts[s], transfer).value;
        InsertTakesFocus(layouts[t], layouts[s], transfer);
        ActiveInUpdate(layouts, t, grown);
        ActiveInErased(layouts[t := grown], transfer.sourceWorkspaceId, transfer.targetWorkspaceId);
        assert ActiveIn(layouts, transfer.sourceWorkspaceId) == layouts[s].activePaneId by {
          ActiveInUpdate(layouts, s, layouts[s]);
          assert layouts[s := layouts[s]] == layouts;
        }
      case MovePane =>
        if s == t {
          var moved := MoveTerminalPane(layouts[s], transfer.sourcePaneId, transfer.targetPaneId, transfer.splitNodeId,
                                        transfer.orientation, transfer.placeAfter).value;
          MoveKeepsId(layouts[s], transfer.sourcePaneId, transfer.targetPaneId, transfer.splitNodeId, transfer.orientation, transfer.placeAfter);
          ActiveInUpdate(layouts, s, moved.(activePaneId := transfer.sourcePaneId));
        } else {
          var remaining := WithoutPane(layouts, s, transfer).value;
          var target := FindLayout(remaining, transfer.targetWorkspaceId);
          RemainingValid(layouts, s, transfer);
          InsertTakesFocus(remaining[target], Extracted(layouts[s], transfer), transfer);
          ExtractedFocus(layouts[s], transfer);
          ActiveInUpdate(remaining, target, InsertTree(remaining[target], Extracted(layouts[s], transfer), transfer).value);
        }
      case ExtractPane =>
        ExtractedFocus(layouts[s], transfer);
        ExtractedRoot(layouts[s], transfer);
        assert after[|after| - 1] == Extracted(layouts[s], transfer);
        ActiveInUpdate(after, |after| - 1, after[|after| - 1]);
        assert after[|after| - 1 := after[|after| - 1]] == after;
    }
  }

  lemma {:induction false} InsertTakesFocus(target: Layout, source: Layout, transfer: Transfer)
    requires InsertTree(target, source, transfer).Some?
    ensures InsertTree(target, source, transfer).value.id == target.id
    ensures InsertTree(target, source, transfer).value.activePaneId == source.activePaneId
  {
    hide ValidLayout;
  }

  lemma {:induction false} ExtractedFocus(source: Layout, transfer: Transfer)
    requires ValidLayout(source) && IsLeaf(source.nodes, transfer.sourcePaneId)
    ensures Extracted(source, transfer).activePaneId == transfer.sourcePaneId
  {
    hide ValidLayout;
  }

  lemma {:induction false} SwapAcrossFocuses(state: State, s: nat, t: nat, transfer: Transfer, after: seq<Layout>)
    requires ValidState(state) && s < |state.terminalWorkspaces| && t < |state.terminalWorkspaces| && s != t
    requires SwapAcross(state, s, t, transfer).Some? && SwapAcross(state, s, t, transfer).value.terminalWorkspaces == after
    requires UniqueLayoutIds(after)
    ensures ActiveIn(after, state.terminalWorkspaces[t].id) == transfer.sourcePaneId
  {
    hide ValidLayout, ValidState, UniqueLayoutIds, FindNode, FindIntent, ActiveIn;
    assert state.terminalWorkspaces[t].id == after[t].id && after[t].activePaneId == transfer.sourcePaneId;
    ActiveInUpdate(after, t, after[t]);
    assert after[t := after[t]] == after;
  }
}
