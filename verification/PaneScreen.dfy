/**
 What a tab shows: its panes and the splits between them, with their directions and proportions.
 The operations on the node list are shown to change this picture exactly as requested.
 */
module PaneScreen {
  import opened WorkspaceState
  import opened PaneTree
  import opened WorkspaceTransfer
  import opened PaneOrder
  import opened LayoutParts
  import opened PaneClosing
  import opened PaneAssembly
  import opened PaneSwaps

  /** A screen shows one terminal, or is divided: side by side if horizontal, one above the other if vertical. */
  datatype Screen =
    | Terminal(id: string)
    | Divided(id: string, orientation: Orientation, ratio: real, first: Screen, second: Screen)

  /** A tab as the user sees it. */
  datatype Tab = Tab(screen: Screen, active: string, title: string, manualTitle: string, windowId: string, returnWorkspaceId: string)

  ghost function Drawn(nodes: seq<Node>, tree: Tree): Screen
    requires Grows(nodes, tree)
  {
    match tree
    case Tip(id) => Terminal(id)
    case Fork(id, first, second) =>
      var node := nodes[FindNode(nodes, id)];
      Divided(id, node.orientation, node.ratio, Drawn(nodes, first), Drawn(nodes, second))
  }

  ghost function ScreenOf(layout: Layout): Screen
    requires ValidLayout(layout)
  {
    Drawn(layout.nodes, TreeOf(layout))
  }

  ghost function TabOf(layout: Layout): Tab
    requires ValidLayout(layout)
  {
    Tab(ScreenOf(layout), layout.activePaneId, layout.title, layout.manualTitle, layout.windowId, layout.returnWorkspaceId)
  }

  /** The terminals from left to right and top to bottom. */
  function Terminals(screen: Screen): seq<string> {
    match screen
    case Terminal(id) => [id]
    case Divided(_, _, _, first, second) => Terminals(first) + Terminals(second)
  }

  // ----- edits of screens -----

  /** A terminal goes, its neighbour takes all the room of the two. */
  function Closed(screen: Screen, pane: string): Screen {
    match screen
    case Terminal(_) => screen
    case Divided(id, orientation, ratio, first, second) =>
      if first == Terminal(pane) then second
      else if second == Terminal(pane) then first
      else Divided(id, orientation, ratio, Closed(first, pane), Closed(second, pane))
  }

  /** The room of terminal `at` is halved in the given direction, for `other` to come before or after it. */
  function Shared(screen: Screen, at: string, splitId: string, orientation: Orientation, other: Screen, placeAfter: bool): Screen {
    match screen
    case Terminal(id) =>
      if id != at then screen
      else if placeAfter then Divided(splitId, orientation, 0.5, screen, other)
      else Divided(splitId, orientation, 0.5, other, screen)
    case Divided(id, o, ratio, first, second) =>
      Divided(id, o, ratio, Shared(first, at, splitId, orientation, other, placeAfter), Shared(second, at, splitId, orientation, other, placeAfter))
  }

  /** Terminals under other names, all splits as they are. */
  function Relettered(screen: Screen, f: string -> string): Screen {
    match screen
    case Terminal(id) => Terminal(f(id))
    case Divided(id, orientation, ratio, first, second) => Divided(id, orientation, ratio, Relettered(first, f), Relettered(second, f))
  }

  /** The two terminals have one split to themselves, in this direction and this order. */
  predicate SideBySide(screen: Screen, first: string, second: string, orientation: Orientation) {
    screen.Divided? && (
      || (screen.orientation == orientation && screen.first == Terminal(first) && screen.second == Terminal(second))
      || SideBySide(screen.first, first, second, orientation) || SideBySide(screen.second, first, second, orientation))
  }

  function FirstTerminal(screen: Screen): string {
    if screen.Terminal? then screen.id else FirstTerminal(screen.first)
  }

  /** The first terminal of what shares a split with the pane. */
  function Neighbour(screen: Screen, pane: string): Option<string> {
    if screen.Terminal? then None
    else if screen.first == Terminal(pane) then Some(FirstTerminal(screen.second))
    else if screen.second == Terminal(pane) then Some(FirstTerminal(screen.first))
    else if Neighbour(screen.first, pane).Some? then Neighbour(screen.first, pane)
    else Neighbour(screen.second, pane)
  }

  /** The tab without the pane: None if it was the only one.  If it was active, its neighbour is. */
  function WithoutTerminal(tab: Tab, pane: string): Option<Tab> {
    if tab.screen.Terminal? then None
    else
      var next := if tab.active == pane && Neighbour(tab.screen, pane).Some? then Neighbour(tab.screen, pane).value else tab.active;
      Some(tab.(screen := Closed(tab.screen, pane), active := next))
  }

  lemma {:induction false} TerminalsDrawn(nodes: seq<Node>, tree: Tree)
    requires Grows(nodes, tree)
    ensures Terminals(Drawn(nodes, tree)) == Panes(tree)
  {
    if tree.Fork? {
      TerminalsDrawn(nodes, tree.first);
      TerminalsDrawn(nodes, tree.second);
    }
  }

  /** The order of the panes is that of the terminals on the screen. */
  lemma {:induction false} OrderIsShown(layout: Layout)
    requires ValidLayout(layout)
    ensures Terminals(ScreenOf(layout)) == Order(layout)
  {
    hide ValidLayout;
    TerminalsDrawn(layout.nodes, TreeOf(layout));
  }

  /** A layout that grows a tree from its root shows it. */
  lemma {:induction false} ShowsTree(layout: Layout, tree: Tree)
    requires ValidLayout(layout) && tree.id == layout.rootNodeId && Grows(layout.nodes, tree)
    ensures ScreenOf(layout) == Drawn(layout.nodes, tree)
  {
    hide ValidLayout;
    IsTheTree(layout, tree);
  }

  lemma {:induction false} SameScreen(a: Layout, b: Layout)
    requires ValidLayout(a) && ValidLayout(b) && a.nodes == b.nodes && a.rootNodeId == b.rootNodeId
    ensures ScreenOf(a) == ScreenOf(b)
  {
    hide ValidLayout;
    ShowsTree(b, TreeOf(a));
  }

  // ----- edits of the node list are edits of the screen -----

  lemma {:induction false} DrawnAlso(before: seq<Node>, after: seq<Node>, tree: Tree)
    requires Grows(before, tree)
    requires forall k :: 0 <= k < |before| ==> Lookup(after, before[k].id) == Some(before[k])
    ensures Grows(after, tree) && Drawn(after, tree) == Drawn(before, tree)
  {
    GrowsAlso(before, after, tree);
    assert before[FindNode(before, tree.id)].id == tree.id;
    if tree.Fork? {
      DrawnAlso(before, after, tree.first);
      DrawnAlso(before, after, tree.second);
    }
  }

  lemma {:induction false} DrawnGrafted(before: seq<Node>, after: seq<Node>, tree: Tree, at: string, split: Node, other: Tree, placeAfter: bool)
    requires Grows(before, tree) && IsLeaf(before, at) && Redirected(before, after, {}, at, split.id)
    requires Grows(after, other) && Lookup(after, split.id) == Some(split) && split.kind.Split? && split.ratio == 0.5
    requires split.firstChildId == (if placeAfter then at else other.id) && split.secondChildId == if placeAfter then other.id else at
    ensures var grafted := Graft(tree, at, split.id, other, placeAfter);
      && Grows(after, grafted)
      && Drawn(after, grafted) == Shared(Drawn(before, tree), at, split.id, split.orientation, Drawn(after, other), placeAfter)
  {
    GraftGrows(before, after, tree, at, split, other, placeAfter);
    assert before[FindNode(before, tree.id)].id == tree.id;
    if tree.Fork? {
      DrawnGrafted(before, after, tree.first, at, split, other, placeAfter);
      DrawnGrafted(before, after, tree.second, at, split, other, placeAfter);
    }
  }

  lemma {:induction false} DrawnPruned(before: seq<Node>, after: seq<Node>, tree: Tree, pane: string, parent: Node, siblingId: string)
    requires Grows(before, tree) && Distinct(Ids(tree)) && IsLeaf(before, pane) && pane != tree.id
    requires IsParent(before, parent, pane, siblingId) && OnlyBelow(tree, pane, parent.id)
    requires Redirected(before, after, {pane, parent.id}, parent.id, siblingId)
    ensures Grows(after, Prune(tree, pane)) && Drawn(after, Prune(tree, pane)) == Closed(Drawn(before, tree), pane)
  {
    hide Distinct, OnlyBelow, Redirected, FindNode, Ids, Elements, Forks;
    PruneGrows(before, after, tree, pane, parent, siblingId);
    if tree.Tip? {
      return;
    }
    DistinctFork(tree.id, tree.first, tree.second);
    RootAmongIds(tree.first);
    RootAmongIds(tree.second);
    PartsOnlyBelow(tree, pane, parent.id);
    if tree.first.id == pane {
      DrawnPruned(before, after, tree.second, pane, parent, siblingId);
      PruneNothing(tree.second, pane);
      ClosesNothing(before, tree.second, pane);
    } else if tree.second.id == pane {
      DrawnPruned(before, after, tree.first, pane, parent, siblingId);
      PruneNothing(tree.first, pane);
      ClosesNothing(before, tree.first, pane);
    } else {
      DrawnPruned(before, after, tree.first, pane, parent, siblingId);
      DrawnPruned(before, after, tree.second, pane, parent, siblingId);
      RedirectedAt(before, after, tree.id, pane, parent.id, siblingId);
    }
  }

  lemma {:induction false} ClosesNothing(nodes: seq<Node>, tree: Tree, pane: string)
    requires Grows(nodes, tree) && pane !in Elements(Ids(tree))
    ensures Closed(Drawn(nodes, tree), pane) == Drawn(nodes, tree)
  {
    if tree.Fork? {
      ElementsOfFork(tree.id, tree.first, tree.second);
      RootAmongIds(tree.first);
      RootAmongIds(tree.second);
      hide Elements;
      ClosesNothing(nodes, tree.first, pane);
      ClosesNothing(nodes, tree.second, pane);
    }
  }

  lemma {:induction false} DrawnRelabelled(before: seq<Node>, after: seq<Node>, tree: Tree, f: string -> string)
    requires Grows(before, tree) && RenamedBy(before, after, f)
    ensures Grows(after, Relabelled(tree, f)) && Drawn(after, Relabelled(tree, f)) == Relettered(Drawn(before, tree), f)
  {
    RelabelGrows(before, after, tree, f);
    assert before[FindNode(before, tree.id)].id == tree.id;
    if tree.Fork? {
      DrawnRelabelled(before, after, tree.first, f);
      DrawnRelabelled(before, after, tree.second, f);
    }
  }

  // ----- closing -----

  lemma {:induction false} FirstDrawn(nodes: seq<Node>, tree: Tree)
    requires Grows(nodes, tree)
    ensures FirstTerminal(Drawn(nodes, tree)) == Leftmost(tree)
  {
    if tree.Fork? {
      FirstDrawn(nodes, tree.first);
    }
  }

  lemma {:induction false} NoNeighbour(nodes: seq<Node>, tree: Tree, pane: string)
    requires Grows(nodes, tree) && pane !in Elements(Ids(tree))
    ensures Neighbour(Drawn(nodes, tree), pane) == None
  {
    if tree.Fork? {
      ElementsOfFork(tree.id, tree.first, tree.second);
      RootAmongIds(tree.first);
      RootAmongIds(tree.second);
      hide Elements;
      NoNeighbour(nodes, tree.first, pane);
      NoNeighbour(nodes, tree.second, pane);
    }
  }

  /** The subtree that takes the place of the pane and its parent starts with the pane's neighbour. */
  lemma {:induction false} NeighbourFound(before: seq<Node>, after: seq<Node>, tree: Tree, pane: string, parent: Node, siblingId: string) returns (part: Tree)
    requires Grows(before, tree) && Distinct(Ids(tree)) && IsLeaf(before, pane) && pane != tree.id
    requires IsParent(before, parent, pane, siblingId) && OnlyBelow(tree, pane, parent.id) && Forks(tree, parent.id, pane)
    requires Redirected(before, after, {pane, parent.id}, parent.id, siblingId)
    ensures part.id == siblingId && Grows(after, part) && Distinct(Ids(part)) && Elements(Ids(part)) <= Elements(Ids(Prune(tree, pane)))
    ensures Neighbour(Drawn(before, tree), pane) == Some(Leftmost(part))
  {
    hide Distinct, OnlyBelow, Redirected, FindNode, Ids, Elements;
    DistinctFork(tree.id, tree.first, tree.second);
    RootAmongIds(tree.first);
    RootAmongIds(tree.second);
    PartsOnlyBelow(tree, pane, parent.id);
    if tree.first.id == pane || tree.second.id == pane {
      part := if tree.first.id == pane then tree.second else tree.first;
      FirstDrawn(before, part);
      PruneNothing(part, pane);
      PruneGrows(before, after, part, pane, parent, siblingId);
    } else {
      ElementsOfFork(tree.id, Prune(tree.first, pane), Prune(tree.second, pane));
      if Forks(tree.first, parent.id, pane) {
        part := NeighbourFound(before, after, tree.first, pane, parent, siblingId);
      } else {
        ForksAmongIds(tree.second, parent.id, pane);
        part := NeighbourFound(before, after, tree.second, pane, parent, siblingId);
        NoNeighbour(before, tree.first, pane);
      }
    }
  }

  /** What closing leaves, and which pane is active then. */
  lemma {:induction false} ClosedIs(layout: Layout, pane: string)
    requires CloseTerminalPane(layout, pane).Some?
    ensures ValidLayout(layout) && |layout.restoreIntents| > 1 && IsLeaf(layout.nodes, pane) && FindParent(layout.nodes, pane) < |layout.nodes|
    ensures var parent := layout.nodes[FindParent(layout.nodes, pane)];
      var siblingId := if parent.firstChildId == pane then parent.secondChildId else parent.firstChildId;
      var closed := CloseTerminalPane(layout, pane).value;
      && ValidLayout(closed)
      && closed == Remaining(layout, pane, parent, siblingId, layout.nodes[FindNode(layout.nodes, pane)].restoreIntentId, closed.activePaneId)
      && if layout.activePaneId == pane then FirstLeaf(closed.nodes, siblingId, NodeIds(closed.nodes)) == Some(closed.activePaneId)
         else closed.activePaneId == layout.activePaneId
  {
    hide ValidLayout, FirstLeaf, EraseNodes, EraseIntents, FindNode, NodeIds, FindParent;
    ParentFound(layout, pane);
  }

  /** The tree below what closing leaves. */
  lemma {:induction false} ClosingTree(layout: Layout, pane: string)
    requires ValidLayout(layout) && |layout.restoreIntents| > 1 && IsLeaf(layout.nodes, pane) && FindParent(layout.nodes, pane) < |layout.nodes|
    ensures var parent := layout.nodes[FindParent(layout.nodes, pane)];
      var siblingId := if parent.firstChildId == pane then parent.secondChildId else parent.firstChildId;
      var tree, spare := TreeOf(layout), Spare(layout.nodes, pane, parent.id, siblingId);
      && Grows(layout.nodes, tree) && Distinct(Ids(tree)) && pane != tree.id
      && IsParent(layout.nodes, parent, pane, siblingId) && OnlyBelow(tree, pane, parent.id) && Forks(tree, parent.id, pane)
      && Redirected(layout.nodes, spare, {pane, parent.id}, parent.id, siblingId)
      && Elements(Ids(Prune(tree, pane))) == NodeIds(spare) && Prune(tree, pane).id == RedirectId(layout.rootNodeId, parent.id, siblingId)
  {
    hide ValidLayout, FindParent, Elements, OnlyBelow, Forks, Spare, NodeIds, IsParent, Distinct, Grows, Prune;
    var parent := layout.nodes[FindParent(layout.nodes, pane)];
    var siblingId := if parent.firstChildId == pane then parent.secondChildId else parent.firstChildId;
    var intentId := layout.nodes[FindNode(layout.nodes, pane)].restoreIntentId;
    ClosingHolds(layout, pane);
    InTreeGrows(layout.nodes, TreeOf(layout));
    ErasedIsRedirected(layout.nodes, pane, parent.id, siblingId);
    IsSpareOf(layout.nodes, pane, parent.id, siblingId);
    RemainingIsWhole(layout, pane, parent, siblingId, intentId, "");
  }

  lemma {:induction false} IsSpareOf(nodes: seq<Node>, a: string, parentId: string, siblingId: string)
    ensures Spare(nodes, a, parentId, siblingId) == EraseNodes(RedirectAll(nodes, parentId, siblingId), a, parentId)
  {
  }

  lemma {:induction false} ForkIsDivided(nodes: seq<Node>, tree: Tree, id: string, child: string)
    requires Grows(nodes, tree) && Forks(tree, id, child)
    ensures Drawn(nodes, tree).Divided? && tree.Fork?
  {
  }

  /** Closing a pane gives its room to its neighbour, and the focus if it had it; the rest of the tab stays. */
  lemma {:induction false} CloseShows(layout: Layout, pane: string)
    requires CloseTerminalPane(layout, pane).Some?
    ensures ValidLayout(layout) && ValidLayout(CloseTerminalPane(layout, pane).value)
    ensures WithoutTerminal(TabOf(layout), pane) == Some(TabOf(CloseTerminalPane(layout, pane).value))
  {
    hide ValidLayout, CloseTerminalPane, FindParent, FindNode, Grows, Drawn, Prune, Elements, Distinct, OnlyBelow, Forks, Redirected, SplitsInTree, Spare, NodeIds, FirstLeaf, IsParent, IsLeaf, Neighbour, Closed, Leftmost;
    ClosedIs(layout, pane);
    var tree, closed := TreeOf(layout), CloseTerminalPane(layout, pane).value;
    var parent := layout.nodes[FindParent(layout.nodes, pane)];
    var siblingId := if parent.firstChildId == pane then parent.secondChildId else parent.firstChildId;
    ClosingTree(layout, pane);
    assert closed.nodes == Spare(layout.nodes, pane, parent.id, siblingId);
    DrawnPruned(layout.nodes, closed.nodes, tree, pane, parent, siblingId);
    PruneGrows(layout.nodes, closed.nodes, tree, pane, parent, siblingId);
    ShowsTree(closed, Prune(tree, pane));
    ForkIsDivided(layout.nodes, tree, parent.id, pane);
    if layout.activePaneId == pane {
      var part := NeighbourFound(layout.nodes, closed.nodes, tree, pane, parent, siblingId);
      FirstLeafIsLeftmost(closed.nodes, part, NodeIds(closed.nodes));
    }
  }

  // ----- inserting -----

  /** The tab after another screen came beside one of its terminals. */
  function JoinedBy(tab: Tab, transfer: Transfer, screen: Screen, active: string): Tab {
    tab.(screen := Shared(tab.screen, transfer.targetPaneId, transfer.splitNodeId, transfer.orientation, screen, transfer.placeAfter),
         active := active)
  }

  /** Inserting halves the target's room in the requested direction; nothing else of the tab changes but its focus. */
  lemma {:induction false} InsertShows(target: Layout, source: Layout, tree: Tree, transfer: Transfer)
    requires ValidLayout(target) && Grows(source.nodes, tree) && tree.id == source.rootNodeId && InsertTree(target, source, transfer).Some?
    ensures ValidLayout(InsertTree(target, source, transfer).value)
    ensures TabOf(InsertTree(target, source, transfer).value)
         == JoinedBy(TabOf(target), transfer, Drawn(source.nodes, tree), source.activePaneId)
  {
    hide InsertTree, ValidLayout, UniqueNodeIds, RedirectAll, FindNode, Grows, Drawn, Graft, Shared, IsLeaf, Redirected, Lookup;
    InsertValidatesGrown(target, source, transfer);
    var grown := Grown(target, source, transfer);
    var at, split := transfer.targetPaneId, NewSplit(source, transfer);
    UniqueOfValid(grown);
    PartsOf(target.nodes, at, split.id, source.nodes, split);
    DrawnAlso(source.nodes, grown.nodes, tree);
    GraftGrows(target.nodes, grown.nodes, TreeOf(target), at, split, tree, transfer.placeAfter);
    DrawnGrafted(target.nodes, grown.nodes, TreeOf(target), at, split, tree, transfer.placeAfter);
    ShowsTree(grown, Graft(TreeOf(target), at, split.id, tree, transfer.placeAfter));
  }

  // ----- swapping -----

  lemma {:induction false} SwapShows(layout: Layout, transfer: Transfer)
    requires ValidLayout(layout) && SwapInside(layout, transfer).Some? && ValidLayout(SwapInside(layout, transfer).value)
    ensures TabOf(SwapInside(layout, transfer).value)
         == TabOf(layout).(screen := Relettered(ScreenOf(layout), Exchanging(transfer.sourcePaneId, transfer.targetPaneId)),
                           active := transfer.sourcePaneId)
  {
    hide ValidLayout, Elements, FindNode, Drawn, Relettered, Relabelled, ExchangeChildren, RenamedBy;
    var tree, a, b := TreeOf(layout), transfer.sourcePaneId, transfer.targetPaneId;
    var swapped := SwapInside(layout, transfer).value;
    UniqueOfValid(layout);
    ExchangeRenames(layout.nodes, a, b);
    RelabelGrows(layout.nodes, swapped.nodes, tree, Exchanging(a, b));
    DrawnRelabelled(layout.nodes, swapped.nodes, tree, Exchanging(a, b));
    LeafInTree(layout, a);
    LeafInTree(layout, b);
    RootKept(layout.nodes, tree, a, b);
    ShowsTree(swapped, Relabelled(tree, Exchanging(a, b)));
  }

  /** A pane from another tab is shown in the very place of the one that left, between the same splits. */
  lemma {:induction false} SubstituteShows(layout: Layout, mine: nat, other: Node, otherIntent: Intent, after: Layout)
    requires ValidLayout(layout) && ValidLayout(after) && mine < |layout.nodes| && layout.nodes[mine].kind.Leaf? && other.kind.Leaf?
    requires FindIntent(layout.restoreIntents, layout.nodes[mine].restoreIntentId) < |layout.restoreIntents|
    requires after == Substitute(layout, mine, other, otherIntent).(activePaneId := after.activePaneId)
    ensures TabOf(after) == TabOf(layout).(screen := Relettered(ScreenOf(layout), Replacing(layout.nodes[mine].id, other.id)),
                                           active := after.activePaneId)
  {
    hide ValidLayout, FindIntent, RenamedBy, UniqueNodeIds, FindNode, Drawn, Relettered, Relabelled, RedirectAll;
    var tree, f := TreeOf(layout), Replacing(layout.nodes[mine].id, other.id);
    UniqueOfValid(layout);
    UniqueOfValid(after);
    ReplacementRenames(layout.nodes, mine, other);
    RelabelGrows(layout.nodes, after.nodes, tree, f);
    DrawnRelabelled(layout.nodes, after.nodes, tree, f);
    ShowsTree(after, Relabelled(tree, f));
  }

  // ----- moving inside a tab -----

  /** The terminals that share a split, in their order, once the pane is beside the target. */
  function FirstOf(pane: string, target: string, placeAfter: bool): string {
    if placeAfter then target else pane
  }

  /** The tab after a move: as it is if the pane is beside the target already, in this direction and order. */
  function MovedTab(tab: Tab, pane: string, target: string, splitId: string, orientation: Orientation, placeAfter: bool): Tab {
    if SideBySide(tab.screen, FirstOf(pane, target, placeAfter), FirstOf(target, pane, placeAfter), orientation) then tab
    else tab.(screen := Shared(Closed(tab.screen, pane), target, splitId, orientation, Terminal(pane), placeAfter), active := pane)
  }

  /** A split of two panes is seen as such. */
  lemma {:induction false} PairIsSeen(nodes: seq<Node>, tree: Tree, k: nat)
    requires Grows(nodes, tree) && UniqueNodeIds(nodes) && k < |nodes| && nodes[k].kind.Split? && nodes[k].id in Elements(Ids(tree))
    requires IsLeaf(nodes, nodes[k].firstChildId) && IsLeaf(nodes, nodes[k].secondChildId)
    ensures SideBySide(Drawn(nodes, tree), nodes[k].firstChildId, nodes[k].secondChildId, nodes[k].orientation)
  {
    LookupMember(nodes, k);
    hide UniqueNodeIds, Elements, FindNode;
    if tree.Tip? {
      TipIds(tree.id);
    } else if tree.id != nodes[k].id {
      ElementsOfFork(tree.id, tree.first, tree.second);
      if nodes[k].id in Elements(Ids(tree.first)) {
        PairIsSeen(nodes, tree.first, k);
      } else {
        PairIsSeen(nodes, tree.second, k);
      }
    }
  }

  /** And what is seen is a split of the list. */
  lemma {:induction false} SeenIsPair(nodes: seq<Node>, tree: Tree, first: string, second: string, orientation: Orientation) returns (k: nat)
    requires Grows(nodes, tree) && SideBySide(Drawn(nodes, tree), first, second, orientation)
    ensures k < |nodes| && nodes[k].kind.Split? && nodes[k].firstChildId == first && nodes[k].secondChildId == second
    ensures nodes[k].orientation == orientation
  {
    hide FindNode;
    k := FindNode(nodes, tree.id);
    var node := nodes[k];
    if !(node.orientation == orientation && node.firstChildId == first && node.secondChildId == second) {
      if SideBySide(Drawn(nodes, tree.first), first, second, orientation) {
        k := SeenIsPair(nodes, tree.first, first, second, orientation);
      } else {
        k := SeenIsPair(nodes, tree.second, first, second, orientation);
      }
    }
  }

  /** The code's test for a pane that is in place already is what the user sees. */
  lemma {:induction false} ShortcutIsSeen(layout: Layout, pane: string, target: string, orientation: Orientation, placeAfter: bool)
    requires ValidLayout(layout) && IsLeaf(layout.nodes, pane) && IsLeaf(layout.nodes, target) && pane != target
    requires FindParent(layout.nodes, pane) < |layout.nodes|
    ensures var parent := layout.nodes[FindParent(layout.nodes, pane)];
      var siblingId := if parent.firstChildId == pane then parent.secondChildId else parent.firstChildId;
      siblingId == target && parent.orientation == orientation && (parent.secondChildId == pane) == placeAfter
      <==> SideBySide(ScreenOf(layout), FirstOf(pane, target, placeAfter), FirstOf(target, pane, placeAfter), orientation)
  {
    hide ValidLayout, Elements, Distinct, Grows, Drawn, SideBySide, FindNode, IsLeaf;
    var tree, p := TreeOf(layout), FindParent(layout.nodes, pane);
    var parent := layout.nodes[p];
    var first, second := FirstOf(pane, target, placeAfter), FirstOf(target, pane, placeAfter);
    ValidSplitsInTree(layout);
    LeafInTree(layout, pane);
    InTreeGrows(layout.nodes, tree);
    hide SplitsInTree, UniqueNodeIds;
    if HasChild(parent, target) && parent.orientation == orientation && parent.firstChildId == first && parent.secondChildId == second {
      PairIsSeen(layout.nodes, tree, p);
    }
    if SideBySide(ScreenOf(layout), first, second, orientation) {
      var k := SeenIsPair(layout.nodes, tree, first, second, orientation);
      OneParent(layout.nodes, tree, pane, k);
    }
  }

  /** The tree below what a move builds, and what it draws. */
  lemma {:induction false} RehungShows(layout: Layout, pane: string, target: string, split: Node, placeAfter: bool)
    requires ValidLayout(layout) && IsLeaf(layout.nodes, pane) && IsLeaf(layout.nodes, target) && pane != target
    requires FindParent(layout.nodes, pane) < |layout.nodes| && ValidLayout(Rehung(layout, pane, target, split))
    requires split.kind.Split? && split.ratio == 0.5
    requires split.firstChildId == FirstOf(pane, target, placeAfter) && split.secondChildId == FirstOf(target, pane, placeAfter)
    ensures ScreenOf(Rehung(layout, pane, target, split))
         == Shared(Closed(ScreenOf(layout), pane), target, split.id, split.orientation, Terminal(pane), placeAfter)
  {
    hide ValidLayout, Distinct, Elements, OnlyBelow, Forks, SplitsInTree, Spare, FindNode, FindParent, Grows, Drawn, Prune, Graft, Shared, Closed, IsLeaf, IsParent, RedirectAll, Rehung, Redirected, UniqueNodeIds;
    var tree, pruned := TreeOf(layout), Prune(TreeOf(layout), pane);
    var parent := layout.nodes[FindParent(layout.nodes, pane)];
    var siblingId := if parent.firstChildId == pane then parent.secondChildId else parent.firstChildId;
    var spare := Spare(layout.nodes, parent.id, parent.id, siblingId);
    var rehung := Rehung(layout, pane, target, split);
    RehungNodes(layout, pane, target, split);
    ParentFound(layout, pane);
    ValidSplitsInTree(layout);
    InTreeGrows(layout.nodes, tree);
    InTreeGrows(spare, pruned);
    SpareRedirected(layout.nodes, pane, parent.id, siblingId);
    DrawnPruned(layout.nodes, spare, tree, pane, parent, siblingId);
    UniqueOfValid(rehung);
    assert rehung.nodes == RedirectAll(spare, target, split.id) + [] + [split];
    PartsOf(spare, target, split.id, [], split);
    RehungGrows(spare, pruned, pane, target, split, placeAfter);
    LeafOfRehung(rehung.nodes, pane);
    DrawnGrafted(spare, rehung.nodes, pruned, target, split, Tip(pane), placeAfter);
    ShowsTree(rehung, Graft(pruned, target, split.id, Tip(pane), placeAfter));
  }

  lemma {:induction false} LeafOfRehung(nodes: seq<Node>, pane: string)
    requires IsLeaf(nodes, pane)
    ensures Grows(nodes, Tip(pane)) && Drawn(nodes, Tip(pane)) == Terminal(pane)
  {
  }

  lemma {:induction false} SpareRedirected(nodes: seq<Node>, pane: string, parentId: string, siblingId: string)
    requires UniqueNodeIds(nodes)
    ensures Redirected(nodes, Spare(nodes, parentId, parentId, siblingId), {pane, parentId}, parentId, siblingId)
  {
    hide UniqueNodeIds, Lookup;
    ErasedIsRedirected(nodes, parentId, parentId, siblingId);
  }

  /** Moving a pane closes its place and halves the target's room in the requested direction. */
  lemma {:induction false} MoveShows(layout: Layout, pane: string, target: string, splitId: string, orientation: Orientation, placeAfter: bool)
    requires MoveTerminalPane(layout, pane, target, splitId, orientation, placeAfter).Some?
    ensures ValidLayout(layout) && ValidLayout(MoveTerminalPane(layout, pane, target, splitId, orientation, placeAfter).value)
    ensures TabOf(MoveTerminalPane(layout, pane, target, splitId, orientation, placeAfter).value)
         == MovedTab(TabOf(layout), pane, target, splitId, orientation, placeAfter)
  {
    hide ValidLayout, MoveTerminalPane, FindParent, FindNode, Drawn, Shared, Closed, SideBySide, IsLeaf, Rehung, ScreenOf;
    MoveParent(layout, pane, target, splitId, orientation, placeAfter);
    ShortcutIsSeen(layout, pane, target, orientation, placeAfter);
    var split := SplitNode(splitId, FirstOf(pane, target, placeAfter), FirstOf(target, pane, placeAfter), orientation);
    MovedIsEither(layout, pane, target, splitId, orientation, placeAfter);
    if !SideBySide(ScreenOf(layout), FirstOf(pane, target, placeAfter), FirstOf(target, pane, placeAfter), orientation) {
      RehungShows(layout, pane, target, split, placeAfter);
      RehungFrame(layout, pane, target, split);
    }
  }

  lemma {:induction false} MoveParent(layout: Layout, pane: string, target: string, splitId: string, orientation: Orientation, placeAfter: bool)
    requires MoveTerminalPane(layout, pane, target, splitId, orientation, placeAfter).Some?
    ensures ValidLayout(layout) && IsLeaf(layout.nodes, pane) && IsLeaf(layout.nodes, target) && pane != target
    ensures FindParent(layout.nodes, pane) < |layout.nodes|
  {
    hide ValidLayout, AttachSplit, Promote, EraseNodes, BoundedText, FindParent;
  }

  lemma {:induction false} MovedIsEither(layout: Layout, pane: string, target: string, splitId: string, orientation: Orientation, placeAfter: bool)
    requires MoveTerminalPane(layout, pane, target, splitId, orientation, placeAfter).Some? && FindParent(layout.nodes, pane) < |layout.nodes|
    ensures var parent := layout.nodes[FindParent(layout.nodes, pane)];
      var siblingId := if parent.firstChildId == pane then parent.secondChildId else parent.firstChildId;
      var split := SplitNode(splitId, FirstOf(pane, target, placeAfter), FirstOf(target, pane, placeAfter), orientation);
      var moved := MoveTerminalPane(layout, pane, target, splitId, orientation, placeAfter).value;
      if siblingId == target && parent.orientation == orientation && (parent.secondChildId == pane) == placeAfter then moved == layout
      else moved == Rehung(layout, pane, target, split) && ValidLayout(moved)
  {
    hide ValidLayout, AttachSplit, Promote, EraseNodes, BoundedText, FindParent, FindNode;
  }
}
