/**
 Transfers of panes between tabs.  A transfer works on a copy of the state and publishes it only
 if the result is valid; panes and restore intents move together and are never created or lost.
 */
module WorkspaceTransfer {
  import opened Lists
  import opened WorkspaceState
  import opened PaneTree

  datatype Kind = MovePane | SwapPanes | ExtractPane | MergeWorkspace

  datatype Transfer = Transfer(
    kind: Kind,
    sourceWorkspaceId: string,
    sourcePaneId: string,
    targetWorkspaceId: string,
    targetPaneId: string,
    splitNodeId: string,
    orientation: Orientation,
    placeAfter: bool)

  // ----- operations on one layout -----

  function MakeSinglePane(workspaceId: string, paneId: string, intent: Intent): Layout {
    Layout(workspaceId, intent.title, paneId, paneId, [Node(paneId, intent.id, "", "", Leaf, Horizontal, 0.5)], [intent],
           "main", "", intent.manualTitle)
  }

  function RedirectId(id: string, before: string, after: string): string {
    if id == before then after else id
  }

  function Redirect(node: Node, before: string, after: string): Node {
    node.(firstChildId := RedirectId(node.firstChildId, before, after),
          secondChildId := RedirectId(node.secondChildId, before, after))
  }

  function RedirectAll(nodes: seq<Node>, before: string, after: string): (r: seq<Node>)
    ensures |r| == |nodes|
    ensures forall k :: 0 <= k < |nodes| ==> r[k] == Redirect(nodes[k], before, after)
  {
    if nodes == [] then [] else [Redirect(nodes[0], before, after)] + RedirectAll(nodes[1..], before, after)
  }

  function ReplaceChild(layout: Layout, before: string, after: string): Layout {
    layout.(rootNodeId := RedirectId(layout.rootNodeId, before, after),
            nodes := RedirectAll(layout.nodes, before, after))
  }

  /** Exchanges two ids wherever they occur as children. */
  function ExchangeChildren(nodes: seq<Node>, a: string, b: string): (r: seq<Node>)
    ensures |r| == |nodes|
  {
    if nodes == [] then []
    else
      [nodes[0].(firstChildId := ExchangeId(nodes[0].firstChildId, a, b),
                 secondChildId := ExchangeId(nodes[0].secondChildId, a, b))]
      + ExchangeChildren(nodes[1..], a, b)
  }

  function ExchangeId(id: string, a: string, b: string): string {
    if id == a then b else if id == b then a else id
  }

  function SplitNode(id: string, first: string, second: string, orientation: Orientation): Node {
    Node(id, "", first, second, Split, orientation, 0.5)
  }

  /** The first split that has `childId` as a child. */
  function FindParent(nodes: seq<Node>, childId: string): (k: nat)
    ensures k <= |nodes|
    ensures k < |nodes| ==> nodes[k].kind.Split? && (nodes[k].firstChildId == childId || nodes[k].secondChildId == childId)
  {
    if nodes == [] || (nodes[0].kind.Split? && (nodes[0].firstChildId == childId || nodes[0].secondChildId == childId)) then 0
    else 1 + FindParent(nodes[1..], childId)
  }

  function EraseNodes(nodes: seq<Node>, a: string, b: string): seq<Node> {
    if nodes == [] then []
    else (if nodes[0].id == a || nodes[0].id == b then [] else [nodes[0]]) + EraseNodes(nodes[1..], a, b)
  }

  function EraseIntents(intents: seq<Intent>, id: string): seq<Intent> {
    if intents == [] then []
    else (if intents[0].id == id then [] else [intents[0]]) + EraseIntents(intents[1..], id)
  }

  /** Splices `siblingId` into the place of its parent. */
  function Promote(layout: Layout, parentId: string, siblingId: string): Layout {
    var grandparent := FindParent(layout.nodes, parentId);
    if grandparent == |layout.nodes| then layout.(rootNodeId := siblingId)
    else if layout.nodes[grandparent].firstChildId == parentId then
      layout.(nodes := layout.nodes[grandparent := layout.nodes[grandparent].(firstChildId := siblingId)])
    else
      layout.(nodes := layout.nodes[grandparent := layout.nodes[grandparent].(secondChildId := siblingId)])
  }

  /** Follows first children down to a leaf; None if a node is missing.  `left` are the ids not passed yet. */
  function FirstLeaf(nodes: seq<Node>, id: string, left: set<string>): Option<string>
    decreases left
  {
    var k := FindNode(nodes, id);
    if k == |nodes| || id !in left then None
    else if nodes[k].kind.Leaf? then Some(id)
    else FirstLeaf(nodes, nodes[k].firstChildId, left - {id})
  }

  function CloseTerminalPane(layout: Layout, paneId: string): Option<Layout> {
    if !ValidLayout(layout) || |layout.restoreIntents| <= 1 then None
    else
      var pane, parent := FindNode(layout.nodes, paneId), FindParent(layout.nodes, paneId);
      if pane == |layout.nodes| || layout.nodes[pane].kind.Split? || parent == |layout.nodes| then None
      else
        var intentId, parentNode := layout.nodes[pane].restoreIntentId, layout.nodes[parent];
        var siblingId := if parentNode.firstChildId == paneId then parentNode.secondChildId else parentNode.firstChildId;
        var promoted := Promote(layout, parentNode.id, siblingId);
        var erased := promoted.(nodes := EraseNodes(promoted.nodes, paneId, parentNode.id),
                                restoreIntents := EraseIntents(promoted.restoreIntents, intentId));
        var nextActive := if erased.activePaneId == paneId then FirstLeaf(erased.nodes, siblingId, NodeIds(erased.nodes))
                          else Some(erased.activePaneId);
        if nextActive.None? then None
        else
          var candidate := erased.(activePaneId := nextActive.value);
          if ValidLayout(candidate) then Some(candidate) else None
  }

  function MoveTerminalPane(layout: Layout, paneId: string, targetPaneId: string, splitNodeId: string,
                            orientation: Orientation, placeAfter: bool): Option<Layout>
  {
    if !ValidLayout(layout) || paneId == targetPaneId || !BoundedText(splitNodeId, 128, false)
       || FindNode(layout.nodes, splitNodeId) < |layout.nodes| then None
    else
      var pane, target := FindNode(layout.nodes, paneId), FindNode(layout.nodes, targetPaneId);
      var parent := FindParent(layout.nodes, paneId);
      if pane == |layout.nodes| || target == |layout.nodes| || parent == |layout.nodes|
         || layout.nodes[pane].kind.Split? || layout.nodes[target].kind.Split? then None
      else
        var parentNode := layout.nodes[parent];
        var siblingId := if parentNode.firstChildId == paneId then parentNode.secondChildId else parentNode.firstChildId;
        if siblingId == targetPaneId && parentNode.orientation == orientation && (parentNode.secondChildId == paneId) == placeAfter then
          Some(layout)
        else
          var promoted := Promote(layout, parentNode.id, siblingId);
          var nodes := EraseNodes(promoted.nodes, parentNode.id, parentNode.id);
          if FindNode(nodes, targetPaneId) == |nodes| then None
          else
            var split := SplitNode(splitNodeId, if placeAfter then targetPaneId else paneId,
                                   if placeAfter then paneId else targetPaneId, orientation);
            var attached := AttachSplit(promoted.(nodes := nodes), targetPaneId, split);
            var candidate := attached.(activePaneId := paneId);
            if ValidLayout(candidate) then Some(candidate) else None
  }

  /** Appends `split` and hangs it where `targetPaneId` was. */
  function AttachSplit(layout: Layout, targetPaneId: string, split: Node): Layout {
    var parent := FindParent(layout.nodes, targetPaneId);
    if parent == |layout.nodes| then layout.(rootNodeId := split.id, nodes := layout.nodes + [split])
    else
      var node := layout.nodes[parent];
      var redirected := if node.firstChildId == targetPaneId then node.(firstChildId := split.id) else node.(secondChildId := split.id);
      layout.(nodes := layout.nodes[parent := redirected] + [split])
  }

  // ----- the transfer -----

  function InsertTree(target: Layout, source: Layout, transfer: Transfer): Option<Layout> {
    if !IsLeaf(target.nodes, transfer.targetPaneId) || transfer.splitNodeId == "" then None
    else
      var split := SplitNode(transfer.splitNodeId,
                             if transfer.placeAfter then transfer.targetPaneId else source.rootNodeId,
                             if transfer.placeAfter then source.rootNodeId else transfer.targetPaneId,
                             transfer.orientation);
      var replaced := ReplaceChild(target, transfer.targetPaneId, transfer.splitNodeId);
      var grown := replaced.(nodes := replaced.nodes + source.nodes + [split],
                             restoreIntents := replaced.restoreIntents + source.restoreIntents,
                             activePaneId := source.activePaneId);
      if ValidLayout(grown) then Some(grown) else None
  }

  /** Two panes of one tab change places by their tree edges. */
  function SwapInside(layout: Layout, transfer: Transfer): Option<Layout> {
    if !IsLeaf(layout.nodes, transfer.sourcePaneId) || !IsLeaf(layout.nodes, transfer.targetPaneId) then None
    else Some(layout.(nodes := ExchangeChildren(layout.nodes, transfer.sourcePaneId, transfer.targetPaneId),
                      activePaneId := transfer.sourcePaneId))
  }

  /** `layout` gives pane `mine` away, with its intent, and gets `other` in its place. */
  function Substitute(layout: Layout, mine: nat, other: Node, otherIntent: Intent): Layout
    requires mine < |layout.nodes|
    requires FindIntent(layout.restoreIntents, layout.nodes[mine].restoreIntentId) < |layout.restoreIntents|
  {
    var intent := FindIntent(layout.restoreIntents, layout.nodes[mine].restoreIntentId);
    var swapped := layout.(restoreIntents := layout.restoreIntents[intent := otherIntent], nodes := layout.nodes[mine := other]);
    ReplaceChild(swapped, layout.nodes[mine].id, other.id)
  }

  function EraseLayout(layouts: seq<Layout>, id: string): seq<Layout> {
    if layouts == [] then []
    else (if layouts[0].id == id then [] else [layouts[0]]) + EraseLayout(layouts[1..], id)
  }

  /** The steps on the copy.  None is the failing return. */
  function ApplyTransfer(state: State, transfer: Transfer): Option<State>
    requires ValidState(state)
  {
    var layouts := state.terminalWorkspaces;
    var s, t := FindLayout(layouts, transfer.sourceWorkspaceId), FindLayout(layouts, transfer.targetWorkspaceId);
    if s == |layouts| then None
    else match transfer.kind
      case SwapPanes =>
        if t == |layouts| then None
        else if s == t then
          var swapped := SwapInside(layouts[s], transfer);
          if swapped.None? then None else Some(state.(terminalWorkspaces := layouts[s := swapped.value]))
        else SwapAcross(state, s, t, transfer)
      case MergeWorkspace =>
        if t == |layouts| || s == t then None
        else
          var grown := InsertTree(layouts[t], layouts[s], transfer);
          if grown.None? then None
          else Some(state.(terminalWorkspaces := EraseLayout(layouts[t := grown.value], transfer.sourceWorkspaceId)))
      case MovePane =>
        if s == t then
          var moved := MoveTerminalPane(layouts[s], transfer.sourcePaneId, transfer.targetPaneId, transfer.splitNodeId,
                                        transfer.orientation, transfer.placeAfter);
          if moved.None? then None
          else Some(state.(terminalWorkspaces := layouts[s := moved.value.(activePaneId := transfer.sourcePaneId)]))
        else if !IsLeaf(layouts[s].nodes, transfer.sourcePaneId) || t == |layouts| then None
        else
          var extracted, remaining := Extracted(layouts[s], transfer), WithoutPane(layouts, s, transfer);
          if remaining.None? then None
          else
            var target := FindLayout(remaining.value, transfer.targetWorkspaceId);
            if target == |remaining.value| then None
            else
              var grown := InsertTree(remaining.value[target], extracted, transfer);
              if grown.None? then None else Some(state.(terminalWorkspaces := remaining.value[target := grown.value]))
      case ExtractPane =>
        if !IsLeaf(layouts[s].nodes, transfer.sourcePaneId) || t < |layouts| then None
        else
          var extracted, remaining := Extracted(layouts[s], transfer), WithoutPane(layouts, s, transfer);
          if remaining.None? then None else Some(state.(terminalWorkspaces := remaining.value + [extracted]))
  }

  /** The restore intent of a pane. */
  function IntentOf(layout: Layout, k: nat): Intent
    requires ValidLayout(layout) && k < |layout.nodes| && layout.nodes[k].kind.Leaf?
  {
    LeafHasIntent(layout, k);
    layout.restoreIntents[FindIntent(layout.restoreIntents, layout.nodes[k].restoreIntentId)]
  }

  /** Two panes of different tabs change places together with their restore intents. */
  function SwappedSource(source: Layout, target: Layout, transfer: Transfer): Layout
    requires ValidLayout(source) && IsLeaf(source.nodes, transfer.sourcePaneId)
    requires ValidLayout(target) && IsLeaf(target.nodes, transfer.targetPaneId)
  {
    var a, b := FindNode(source.nodes, transfer.sourcePaneId), FindNode(target.nodes, transfer.targetPaneId);
    LeafHasIntent(source, a);
    var given := Substitute(source, a, target.nodes[b], IntentOf(target, b));
    given.(activePaneId := RedirectId(given.activePaneId, transfer.sourcePaneId, transfer.targetPaneId))
  }

  function SwappedTarget(source: Layout, target: Layout, transfer: Transfer): Layout
    requires ValidLayout(source) && IsLeaf(source.nodes, transfer.sourcePaneId)
    requires ValidLayout(target) && IsLeaf(target.nodes, transfer.targetPaneId)
  {
    var a, b := FindNode(source.nodes, transfer.sourcePaneId), FindNode(target.nodes, transfer.targetPaneId);
    LeafHasIntent(target, b);
    Substitute(target, b, source.nodes[a], IntentOf(source, a)).(activePaneId := transfer.sourcePaneId)
  }

  function SwapAcross(state: State, s: nat, t: nat, transfer: Transfer): Option<State>
    requires ValidState(state) && s < |state.terminalWorkspaces| && t < |state.terminalWorkspaces| && s != t
  {
    var source, target := state.terminalWorkspaces[s], state.terminalWorkspaces[t];
    if !IsLeaf(source.nodes, transfer.sourcePaneId) || !IsLeaf(target.nodes, transfer.targetPaneId) then None
    else
      Some(state.(terminalWorkspaces :=
        state.terminalWorkspaces[s := SwappedSource(source, target, transfer)][t := SwappedTarget(source, target, transfer)]))
  }

  /** The pane as a tab of its own. */
  function Extracted(source: Layout, transfer: Transfer): Layout
    requires ValidLayout(source) && IsLeaf(source.nodes, transfer.sourcePaneId)
  {
    var pane := FindNode(source.nodes, transfer.sourcePaneId);
    MakeSinglePane(transfer.targetWorkspaceId, source.nodes[pane].id, IntentOf(source, pane))
  }

  /** The source tab loses the pane, or disappears with its last pane. */
  function WithoutPane(layouts: seq<Layout>, s: nat, transfer: Transfer): Option<seq<Layout>>
    requires s < |layouts|
  {
    if |layouts[s].restoreIntents| > 1 then
      var closed := CloseTerminalPane(layouts[s], transfer.sourcePaneId);
      if closed.None? then None else Some(layouts[s := closed.value])
    else Some(EraseLayout(layouts, transfer.sourceWorkspaceId))
  }

  /** The published operation: None leaves the caller's state as it is. */
  function TransferTerminalWorkspace(state: State, transfer: Transfer): Option<State> {
    if !ValidState(state) || transfer.sourceWorkspaceId == "" || transfer.targetWorkspaceId == "" then None
    else
      var applied := ApplyTransfer(state, transfer);
      if applied.None? then None
      else
        var candidate := applied.value.(activeTerminalWorkspaceId := transfer.targetWorkspaceId);
        if ValidState(candidate) then Some(candidate) else None
  }

  lemma {:induction false} LeafHasIntent(layout: Layout, k: nat)
    requires ValidLayout(layout) && k < |layout.nodes| && layout.nodes[k].kind.Leaf?
    ensures FindIntent(layout.restoreIntents, layout.nodes[k].restoreIntentId) < |layout.restoreIntents|
  {
    ValidIsWellFormed(layout);
  }

  // ----- what the layouts hold -----

  datatype Item = Pane(id: string, intentId: string) | Restore(intent: Intent)

  function One(condition: bool): nat {
    if condition then 1 else 0
  }

  predicate IsPane(node: Node, item: Item) {
    node.kind.Leaf? && item == Pane(node.id, node.restoreIntentId)
  }

  function InNodes(nodes: seq<Node>, item: Item): nat {
    if nodes == [] then 0 else One(IsPane(nodes[0], item)) + InNodes(nodes[1..], item)
  }

  function InIntents(intents: seq<Intent>, item: Item): nat {
    if intents == [] then 0 else One(item == Restore(intents[0])) + InIntents(intents[1..], item)
  }

  /** How often a layout holds a pane with its intent id, or a restore intent. */
  function Held(layout: Layout, item: Item): nat {
    InNodes(layout.nodes, item) + InIntents(layout.restoreIntents, item)
  }

  function AllHeld(layouts: seq<Layout>, item: Item): nat {
    if layouts == [] then 0 else Held(layouts[0], item) + AllHeld(layouts[1..], item)
  }

  lemma {:induction false} InNodesAppend(a: seq<Node>, b: seq<Node>, item: Item)
    ensures InNodes(a + b, item) == InNodes(a, item) + InNodes(b, item)
  {
    if a == [] {
      assert a + b == b;
    } else {
      InNodesAppend(a[1..], b, item);
      assert (a + b)[1..] == a[1..] + b;
    }
  }

  lemma {:induction false} InIntentsAppend(a: seq<Intent>, b: seq<Intent>, item: Item)
    ensures InIntents(a + b, item) == InIntents(a, item) + InIntents(b, item)
  {
    if a == [] {
      assert a + b == b;
    } else {
      InIntentsAppend(a[1..], b, item);
      assert (a + b)[1..] == a[1..] + b;
    }
  }

  lemma {:induction false} AllHeldAppend(a: seq<Layout>, b: seq<Layout>, item: Item)
    ensures AllHeld(a + b, item) == AllHeld(a, item) + AllHeld(b, item)
  {
    hide Held;
    if a == [] {
      assert a + b == b;
    } else {
      AllHeldAppend(a[1..], b, item);
      assert (a + b)[1..] == a[1..] + b;
    }
  }

  lemma {:induction false} InNodesUpdate(nodes: seq<Node>, k: nat, node: Node, item: Item)
    requires k < |nodes|
    ensures InNodes(nodes[k := node], item) + One(IsPane(nodes[k], item)) == InNodes(nodes, item) + One(IsPane(node, item))
  {
    hide IsPane;
    if k == 0 {
      assert nodes[0 := node][1..] == nodes[1..];
    } else {
      InNodesUpdate(nodes[1..], k - 1, node, item);
      assert nodes[k := node][1..] == nodes[1..][k - 1 := node];
    }
  }

  lemma {:induction false} InIntentsUpdate(intents: seq<Intent>, k: nat, intent: Intent, item: Item)
    requires k < |intents|
    ensures InIntents(intents[k := intent], item) + One(item == Restore(intents[k]))
         == InIntents(intents, item) + One(item == Restore(intent))
  {
    if k == 0 {
      assert intents[0 := intent][1..] == intents[1..];
    } else {
      InIntentsUpdate(intents[1..], k - 1, intent, item);
      assert intents[k := intent][1..] == intents[1..][k - 1 := intent];
    }
  }

  lemma {:induction false} AllHeldUpdate(layouts: seq<Layout>, k: nat, layout: Layout, item: Item)
    requires k < |layouts|
    ensures AllHeld(layouts[k := layout], item) + Held(layouts[k], item) == AllHeld(layouts, item) + Held(layout, item)
  {
    hide Held;
    if k == 0 {
      assert layouts[0 := layout][1..] == layouts[1..];
    } else {
      AllHeldUpdate(layouts[1..], k - 1, layout, item);
      assert layouts[k := layout][1..] == layouts[1..][k - 1 := layout];
    }
  }

  lemma {:induction false} InNodesRedirect(nodes: seq<Node>, before: string, after: string, item: Item)
    ensures InNodes(RedirectAll(nodes, before, after), item) == InNodes(nodes, item)
  {
    if nodes != [] {
      InNodesRedirect(nodes[1..], before, after, item);
      assert RedirectAll(nodes, before, after)[1..] == RedirectAll(nodes[1..], before, after);
    }
  }

  lemma {:induction false} InNodesExchange(nodes: seq<Node>, a: string, b: string, item: Item)
    ensures InNodes(ExchangeChildren(nodes, a, b), item) == InNodes(nodes, item)
  {
    if nodes != [] {
      InNodesExchange(nodes[1..], a, b, item);
      assert ExchangeChildren(nodes, a, b)[1..] == ExchangeChildren(nodes[1..], a, b);
    }
  }

  lemma {:induction false} InNodesNoId(nodes: seq<Node>, item: Item)
    requires item.Pane? ==> forall k :: 0 <= k < |nodes| ==> nodes[k].id != item.id
    ensures InNodes(nodes, item) == 0
  {
    if nodes != [] {
      InNodesNoId(nodes[1..], item);
    }
  }

  /** Erasing by id removes the panes with these ids, and with unique ids at most one each. */
  lemma {:induction false} InNodesErase(nodes: seq<Node>, a: string, b: string, item: Item)
    ensures InNodes(EraseNodes(nodes, a, b), item) == if item.Pane? && (item.id == a || item.id == b) then 0 else InNodes(nodes, item)
  {
    if nodes != [] {
      InNodesErase(nodes[1..], a, b, item);
      var head := if nodes[0].id == a || nodes[0].id == b then [] else [nodes[0]];
      InNodesAppend(head, EraseNodes(nodes[1..], a, b), item);
      assert head != [] ==> head[1..] == [];
    }
  }

  lemma {:induction false} InIntentsErase(intents: seq<Intent>, id: string, item: Item)
    ensures InIntents(EraseIntents(intents, id), item) == if item.Restore? && item.intent.id == id then 0 else InIntents(intents, item)
  {
    if intents != [] {
      InIntentsErase(intents[1..], id, item);
      var head := if intents[0].id == id then [] else [intents[0]];
      InIntentsAppend(head, EraseIntents(intents[1..], id), item);
      assert head != [] ==> head[1..] == [];
    }
  }

  /** With unique ids, the only pane with the id of node `k` is node `k`. */
  lemma {:induction false} InNodesUnique(nodes: seq<Node>, k: nat, item: Item)
    requires k < |nodes| && UniqueNodeIds(nodes) && item.Pane? && item.id == nodes[k].id
    ensures InNodes(nodes, item) == One(IsPane(nodes[k], item))
  {
    if k == 0 {
      assert forall j :: 0 <= j < |nodes[1..]| ==> nodes[1..][j].id != nodes[0].id;
      InNodesNoId(nodes[1..], item);
    } else {
      assert forall i, j :: 0 <= i < j < |nodes[1..]| ==> nodes[1..][i].id != nodes[1..][j].id;
      InNodesUnique(nodes[1..], k - 1, item);
      assert nodes[0].id != nodes[k].id;
    }
  }

  lemma {:induction false} InIntentsUnique(intents: seq<Intent>, k: nat, item: Item)
    requires k < |intents| && UniqueIntentIds(intents) && item.Restore? && item.intent.id == intents[k].id
    ensures InIntents(intents, item) == One(item == Restore(intents[k]))
  {
    if k == 0 {
      assert forall j :: 0 <= j < |intents[1..]| ==> intents[1..][j].id != intents[0].id;
      InIntentsNoId(intents[1..], item);
    } else {
      assert forall i, j :: 0 <= i < j < |intents[1..]| ==> intents[1..][i].id != intents[1..][j].id;
      InIntentsUnique(intents[1..], k - 1, item);
      assert intents[0].id != intents[k].id;
    }
  }

  lemma {:induction false} InIntentsNoId(intents: seq<Intent>, item: Item)
    requires item.Restore? ==> forall k :: 0 <= k < |intents| ==> intents[k].id != item.intent.id
    ensures InIntents(intents, item) == 0
  {
    if intents != [] {
      InIntentsNoId(intents[1..], item);
    }
  }

  lemma {:induction false} EraseLayoutIsRemove(layouts: seq<Layout>, k: nat)
    requires k < |layouts| && UniqueLayoutIds(layouts)
    ensures EraseLayout(layouts, layouts[k].id) == RemoveAt(layouts, k)
  {
    if k == 0 {
      assert forall j :: 0 <= j < |layouts[1..]| ==> layouts[1..][j].id != layouts[0].id;
      EraseNothing(layouts[1..], layouts[0].id);
    } else {
      assert forall i, j :: 0 <= i < j < |layouts[1..]| ==> layouts[1..][i].id != layouts[1..][j].id;
      EraseLayoutIsRemove(layouts[1..], k - 1);
      assert layouts[0].id != layouts[k].id;
      RemoveFromTail(layouts, k);
      hide RemoveAt;
    }
  }

  lemma {:induction false} EraseNothing(layouts: seq<Layout>, id: string)
    requires forall k :: 0 <= k < |layouts| ==> layouts[k].id != id
    ensures EraseLayout(layouts, id) == layouts
  {
    if layouts != [] {
      EraseNothing(layouts[1..], id);
    }
  }

  lemma {:induction false} AllHeldErase(layouts: seq<Layout>, k: nat, item: Item)
    requires k < |layouts| && UniqueLayoutIds(layouts)
    ensures AllHeld(EraseLayout(layouts, layouts[k].id), item) + Held(layouts[k], item) == AllHeld(layouts, item)
  {
    EraseLayoutIsRemove(layouts, k);
    hide Held, EraseLayout, UniqueLayoutIds;
    AllHeldAppend(layouts[..k], layouts[k + 1..], item);
    AllHeldAppend(layouts[..k], [layouts[k]] + layouts[k + 1..], item);
    assert ([layouts[k]] + layouts[k + 1..])[1..] == layouts[k + 1..];
    assert layouts[..k] + ([layouts[k]] + layouts[k + 1..]) == layouts;
  }

  // ----- nothing is created or lost -----

  lemma {:induction false} PromoteKeeps(layout: Layout, parentId: string, siblingId: string, item: Item)
    ensures var promoted := Promote(layout, parentId, siblingId);
      InNodes(promoted.nodes, item) == InNodes(layout.nodes, item) && promoted.restoreIntents == layout.restoreIntents
  {
    var g := FindParent(layout.nodes, parentId);
    if g < |layout.nodes| {
      InNodesUpdate(layout.nodes, g, layout.nodes[g].(firstChildId := siblingId), item);
      InNodesUpdate(layout.nodes, g, layout.nodes[g].(secondChildId := siblingId), item);
    }
  }

  /** Closing a pane takes exactly this pane and its intent out of the layout. */
  lemma {:induction false} CloseTakesThePane(layout: Layout, paneId: string, item: Item)
    requires CloseTerminalPane(layout, paneId).Some?
    ensures ValidLayout(layout) && IsLeaf(layout.nodes, paneId)
    ensures var pane := layout.nodes[FindNode(layout.nodes, paneId)];
      var k := FindIntent(layout.restoreIntents, pane.restoreIntentId);
      k < |layout.restoreIntents| &&
      Held(CloseTerminalPane(layout, paneId).value, item)
        == Held(layout, item) - One(IsPane(pane, item)) - One(item == Restore(layout.restoreIntents[k]))
  {
    var at, parent := FindNode(layout.nodes, paneId), FindParent(layout.nodes, paneId);
    var pane, parentNode := layout.nodes[at], layout.nodes[parent];
    LeafHasIntent(layout, at);
    var k := FindIntent(layout.restoreIntents, pane.restoreIntentId);
    var siblingId := if parentNode.firstChildId == paneId then parentNode.secondChildId else parentNode.firstChildId;
    var promoted := Promote(layout, parentNode.id, siblingId);
    PromoteKeeps(layout, parentNode.id, siblingId, item);
    InNodesErase(promoted.nodes, paneId, parentNode.id, item);
    InIntentsErase(layout.restoreIntents, pane.restoreIntentId, item);
    if item.Pane? && item.id == paneId {
      InNodesUnique(layout.nodes, at, item);
    }
    if item.Pane? && item.id == parentNode.id {
      InNodesUnique(layout.nodes, parent, item);
    }
    if item.Restore? && item.intent.id == pane.restoreIntentId {
      InIntentsUnique(layout.restoreIntents, k, item);
    }
  }

  lemma {:induction false} MoveInsideKeeps(layout: Layout, paneId: string, targetPaneId: string, splitNodeId: string,
                        orientation: Orientation, placeAfter: bool, item: Item)
    requires MoveTerminalPane(layout, paneId, targetPaneId, splitNodeId, orientation, placeAfter).Some?
    ensures ValidLayout(layout)
    ensures Held(MoveTerminalPane(layout, paneId, targetPaneId, splitNodeId, orientation, placeAfter).value, item) == Held(layout, item)
  {
    var parent := FindParent(layout.nodes, paneId);
    var parentNode := layout.nodes[parent];
    var siblingId := if parentNode.firstChildId == paneId then parentNode.secondChildId else parentNode.firstChildId;
    var promoted := Promote(layout, parentNode.id, siblingId);
    DissolveKeeps(layout, parent, siblingId, item);
    var nodes := EraseNodes(promoted.nodes, parentNode.id, parentNode.id);
    var split := SplitNode(splitNodeId, if placeAfter then targetPaneId else paneId,
                           if placeAfter then paneId else targetPaneId, orientation);
    AttachKeeps(promoted.(nodes := nodes), targetPaneId, split, item);
    hide ValidLayout, AttachSplit, Promote, EraseNodes, InNodes, InIntents;
  }

  /** Taking a split out of the tree loses no pane. */
  lemma {:induction false} DissolveKeeps(layout: Layout, parent: nat, siblingId: string, item: Item)
    requires parent < |layout.nodes| && UniqueNodeIds(layout.nodes) && layout.nodes[parent].kind.Split?
    ensures var promoted := Promote(layout, layout.nodes[parent].id, siblingId);
      var id := layout.nodes[parent].id;
      InNodes(EraseNodes(promoted.nodes, id, id), item) == InNodes(layout.nodes, item) && promoted.restoreIntents == layout.restoreIntents
  {
    var id := layout.nodes[parent].id;
    var promoted := Promote(layout, id, siblingId);
    PromoteKeeps(layout, id, siblingId, item);
    hide Promote, EraseNodes, InNodes;
    InNodesErase(promoted.nodes, id, id, item);
    if item.Pane? && item.id == id {
      InNodesUnique(layout.nodes, parent, item);
    }
  }

  lemma {:induction false} AttachKeeps(layout: Layout, targetPaneId: string, split: Node, item: Item)
    requires split.kind.Split?
    ensures var attached := AttachSplit(layout, targetPaneId, split);
      InNodes(attached.nodes, item) == InNodes(layout.nodes, item) && attached.restoreIntents == layout.restoreIntents
  {
    var parent := FindParent(layout.nodes, targetPaneId);
    InNodesAppend(layout.nodes, [split], item);
    assert InNodes([split], item) == 0;
    if parent < |layout.nodes| {
      var node := layout.nodes[parent];
      var redirected := if node.firstChildId == targetPaneId then node.(firstChildId := split.id) else node.(secondChildId := split.id);
      InNodesUpdate(layout.nodes, parent, redirected, item);
      InNodesAppend(layout.nodes[parent := redirected], [split], item);
    }
  }

  lemma {:induction false} InsertJoins(target: Layout, source: Layout, transfer: Transfer, item: Item)
    requires InsertTree(target, source, transfer).Some?
    ensures Held(InsertTree(target, source, transfer).value, item) == Held(target, item) + Held(source, item)
  {
    var split := SplitNode(transfer.splitNodeId,
                           if transfer.placeAfter then transfer.targetPaneId else source.rootNodeId,
                           if transfer.placeAfter then source.rootNodeId else transfer.targetPaneId,
                           transfer.orientation);
    var replaced := ReplaceChild(target, transfer.targetPaneId, transfer.splitNodeId);
    InNodesRedirect(target.nodes, transfer.targetPaneId, transfer.splitNodeId, item);
    InNodesAppend(replaced.nodes + source.nodes, [split], item);
    InNodesAppend(replaced.nodes, source.nodes, item);
    InIntentsAppend(target.restoreIntents, source.restoreIntents, item);
    assert [split][1..] == [];
    hide ValidLayout, ReplaceChild;
  }

  lemma {:induction false} SubstituteKeeps(layout: Layout, mine: nat, other: Node, otherIntent: Intent, item: Item)
    requires mine < |layout.nodes|
    requires FindIntent(layout.restoreIntents, layout.nodes[mine].restoreIntentId) < |layout.restoreIntents|
    ensures var k := FindIntent(layout.restoreIntents, layout.nodes[mine].restoreIntentId);
      Held(Substitute(layout, mine, other, otherIntent), item)
        + One(IsPane(layout.nodes[mine], item)) + One(item == Restore(layout.restoreIntents[k]))
        == Held(layout, item) + One(IsPane(other, item)) + One(item == Restore(otherIntent))
  {
    var k := FindIntent(layout.restoreIntents, layout.nodes[mine].restoreIntentId);
    InNodesUpdate(layout.nodes, mine, other, item);
    InIntentsUpdate(layout.restoreIntents, k, otherIntent, item);
    InNodesRedirect(layout.nodes[mine := other], layout.nodes[mine].id, other.id, item);
  }

  lemma {:induction false} ExtractedHolds(source: Layout, transfer: Transfer, item: Item)
    requires ValidLayout(source) && IsLeaf(source.nodes, transfer.sourcePaneId)
    ensures var pane := source.nodes[FindNode(source.nodes, transfer.sourcePaneId)];
      var k := FindIntent(source.restoreIntents, pane.restoreIntentId);
      k < |source.restoreIntents| &&
      Held(Extracted(source, transfer), item) == One(IsPane(pane, item)) + One(item == Restore(source.restoreIntents[k]))
  {
    var at := FindNode(source.nodes, transfer.sourcePaneId);
    LeafHasIntent(source, at);
    var made := Extracted(source, transfer);
    assert IsPane(made.nodes[0], item) <==> IsPane(source.nodes[at], item);
    OneOfEach(made, item);
  }

  lemma {:induction false} OneOfEach(layout: Layout, item: Item)
    requires |layout.nodes| == 1 && |layout.restoreIntents| == 1
    ensures Held(layout, item) == One(IsPane(layout.nodes[0], item)) + One(item == Restore(layout.restoreIntents[0]))
  {
    assert InNodes(layout.nodes[1..], item) == 0 && InIntents(layout.restoreIntents[1..], item) == 0;
  }

  /** A tab with a single intent is that one pane. */
  lemma {:induction false} SinglePaneIsAll(source: Layout, transfer: Transfer, item: Item)
    requires ValidLayout(source) && IsLeaf(source.nodes, transfer.sourcePaneId) && |source.restoreIntents| == 1
    ensures Held(Extracted(source, transfer), item) == Held(source, item)
  {
    ValidIsWellFormed(source);
    ExtractedHolds(source, transfer, item);
    var at := FindNode(source.nodes, transfer.sourcePaneId);
    hide ValidLayout, HeaderInOrder, Extracted, Spans;
    assert InIntents(source.restoreIntents[1..], item) == 0;
    forall k | 0 <= k < |source.nodes| && source.nodes[k].kind.Leaf?
      ensures k == at
    {
      assert NodeInOrder(source, source.nodes[k]) && NodeInOrder(source, source.nodes[at]);
      assert source.nodes[k].restoreIntentId == source.restoreIntents[0].id == source.nodes[at].restoreIntentId;
    }
    OnlyLeaf(source.nodes, at, item);
  }

  lemma {:induction false} OnlyLeaf(nodes: seq<Node>, at: nat, item: Item)
    requires at < |nodes| && forall k :: 0 <= k < |nodes| && nodes[k].kind.Leaf? ==> k == at
    ensures InNodes(nodes, item) == One(IsPane(nodes[at], item))
  {
    if at == 0 {
      NoLeaf(nodes[1..], item);
    } else {
      OnlyLeaf(nodes[1..], at - 1, item);
    }
  }

  lemma {:induction false} NoLeaf(nodes: seq<Node>, item: Item)
    requires forall k :: 0 <= k < |nodes| ==> nodes[k].kind.Split?
    ensures InNodes(nodes, item) == 0
  {
    if nodes != [] {
      NoLeaf(nodes[1..], item);
    }
  }

  lemma {:induction false} WithoutPaneLacksIt(layouts: seq<Layout>, s: nat, transfer: Transfer, item: Item)
    requires s < |layouts| && UniqueLayoutIds(layouts) && layouts[s].id == transfer.sourceWorkspaceId
    requires ValidLayout(layouts[s]) && IsLeaf(layouts[s].nodes, transfer.sourcePaneId)
    requires WithoutPane(layouts, s, transfer).Some?
    ensures AllHeld(WithoutPane(layouts, s, transfer).value, item) + Held(Extracted(layouts[s], transfer), item) == AllHeld(layouts, item)
  {
    ExtractedHolds(layouts[s], transfer, item);
    if |layouts[s].restoreIntents| > 1 {
      CloseTakesThePane(layouts[s], transfer.sourcePaneId, item);
      AllHeldUpdate(layouts, s, CloseTerminalPane(layouts[s], transfer.sourcePaneId).value, item);
    } else {
      SinglePaneIsAll(layouts[s], transfer, item);
      AllHeldErase(layouts, s, item);
    }
  }

  lemma {:induction false} MergeKeeps(layouts: seq<Layout>, s: nat, t: nat, transfer: Transfer, item: Item)
    requires s < |layouts| && t < |layouts| && s != t && UniqueLayoutIds(layouts)
    requires layouts[s].id == transfer.sourceWorkspaceId && InsertTree(layouts[t], layouts[s], transfer).Some?
    ensures AllHeld(EraseLayout(layouts[t := InsertTree(layouts[t], layouts[s], transfer).value], transfer.sourceWorkspaceId), item)
         == AllHeld(layouts, item)
  {
    var grown := InsertTree(layouts[t], layouts[s], transfer).value;
    assert grown.id == layouts[t].id;
    InsertJoins(layouts[t], layouts[s], transfer, item);
    AllHeldUpdate(layouts, t, grown, item);
    var updated := layouts[t := grown];
    assert UniqueLayoutIds(updated) by {
      forall i, j | 0 <= i < j < |updated|
        ensures updated[i].id != updated[j].id
      {
        assert layouts[i].id != layouts[j].id;
      }
    }
    hide InsertTree, EraseLayout, Held, AllHeld;
    AllHeldErase(updated, s, item);
  }

  lemma {:induction false} SwapAcrossKeeps(state: State, s: nat, t: nat, transfer: Transfer, item: Item)
    requires ValidState(state) && s < |state.terminalWorkspaces| && t < |state.terminalWorkspaces| && s != t
    requires SwapAcross(state, s, t, transfer).Some?
    ensures AllHeld(SwapAcross(state, s, t, transfer).value.terminalWorkspaces, item) == AllHeld(state.terminalWorkspaces, item)
  {
    var layouts := state.terminalWorkspaces;
    var source', target' := SwappedSource(layouts[s], layouts[t], transfer), SwappedTarget(layouts[s], layouts[t], transfer);
    SwapBalances(layouts[s], layouts[t], transfer, item);
    assert SwapAcross(state, s, t, transfer).value.terminalWorkspaces == layouts[s := source'][t := target'];
    hide SwappedSource, SwappedTarget, ValidState, ValidLayout, SwapAcross, Held, AllHeld;
    AllHeldUpdate(layouts, s, source', item);
    AllHeldUpdate(layouts[s := source'], t, target', item);
  }

  lemma {:induction false} SwapBalances(source: Layout, target: Layout, transfer: Transfer, item: Item)
    requires ValidLayout(source) && IsLeaf(source.nodes, transfer.sourcePaneId)
    requires ValidLayout(target) && IsLeaf(target.nodes, transfer.targetPaneId)
    ensures Held(SwappedSource(source, target, transfer), item) + Held(SwappedTarget(source, target, transfer), item)
         == Held(source, item) + Held(target, item)
  {
    hide ValidLayout, IsPane, InNodes, InIntents, Substitute;
    var a, b := FindNode(source.nodes, transfer.sourcePaneId), FindNode(target.nodes, transfer.targetPaneId);
    var first, second := source.nodes[a], target.nodes[b];
    LeafHasIntent(source, a);
    LeafHasIntent(target, b);
    SubstituteKeeps(source, a, second, IntentOf(target, b), item);
    SubstituteKeeps(target, b, first, IntentOf(source, a), item);
  }

  /** The tabs together hold every pane with its intent id, and every restore intent, equally often. */
  ghost predicate SameHoldings(before: seq<Layout>, after: seq<Layout>) {
    forall item :: AllHeld(after, item) == AllHeld(before, item)
  }

  /**
   Whatever the transfer, every pane keeps its intent and every restore intent survives: each
   item is held exactly as often as before, over all tabs together.
   */
  lemma {:induction false} TransferConserves(state: State, transfer: Transfer, after: State)
    requires TransferTerminalWorkspace(state, transfer) == Some(after)
    ensures SameHoldings(state.terminalWorkspaces, after.terminalWorkspaces)
  {
    hide ApplyTransfer, ValidState, SameHoldings;
    AppliedKeepsHoldings(state, transfer);
  }

  lemma {:induction false} AppliedKeepsHoldings(state: State, transfer: Transfer)
    requires ValidState(state) && ApplyTransfer(state, transfer).Some?
    ensures SameHoldings(state.terminalWorkspaces, ApplyTransfer(state, transfer).value.terminalWorkspaces)
  {
    hide ValidState, ApplyTransfer, AllHeld;
    forall item: Item
      ensures AllHeld(ApplyTransfer(state, transfer).value.terminalWorkspaces, item) == AllHeld(state.terminalWorkspaces, item)
    {
      ApplyKeepsItem(state, transfer, item);
    }
  }

  /** Already the steps on the copy keep every item. */
  lemma {:induction false} ApplyKeepsItem(state: State, transfer: Transfer, item: Item)
    requires ValidState(state) && ApplyTransfer(state, transfer).Some?
    ensures AllHeld(ApplyTransfer(state, transfer).value.terminalWorkspaces, item) == AllHeld(state.terminalWorkspaces, item)
  {
    var layouts := state.terminalWorkspaces;
    var s, t := FindLayout(layouts, transfer.sourceWorkspaceId), FindLayout(layouts, transfer.targetWorkspaceId);
    hide InsertTree, WithoutPane, Extracted, ValidLayout, UniqueLayoutIds, SwapAcross, MoveTerminalPane;
    match transfer.kind {
      case SwapPanes =>
        if s == t {
          var swapped := SwapInside(layouts[s], transfer).value;
          InNodesExchange(layouts[s].nodes, transfer.sourcePaneId, transfer.targetPaneId, item);
          AllHeldUpdate(layouts, s, swapped, item);
        } else {
          SwapAcrossKeeps(state, s, t, transfer, item);
        }
      case MergeWorkspace =>
        MergeKeeps(layouts, s, t, transfer, item);
      case MovePane =>
        if s == t {
          MoveInsideKeeps(layouts[s], transfer.sourcePaneId, transfer.targetPaneId, transfer.splitNodeId,
                          transfer.orientation, transfer.placeAfter, item);
          var moved := MoveTerminalPane(layouts[s], transfer.sourcePaneId, transfer.targetPaneId, transfer.splitNodeId,
                                        transfer.orientation, transfer.placeAfter).value;
          AllHeldUpdate(layouts, s, moved.(activePaneId := transfer.sourcePaneId), item);
        } else {
          MoveAcrossKeeps(layouts, s, transfer, item);
        }
      case ExtractPane =>
        ExtractKeeps(layouts, s, transfer, item);
    }
  }

  lemma {:induction false} MoveAcrossKeeps(layouts: seq<Layout>, s: nat, transfer: Transfer, item: Item)
    requires s < |layouts| && UniqueLayoutIds(layouts) && layouts[s].id == transfer.sourceWorkspaceId
    requires ValidLayout(layouts[s]) && IsLeaf(layouts[s].nodes, transfer.sourcePaneId)
    requires WithoutPane(layouts, s, transfer).Some?
    requires var remaining := WithoutPane(layouts, s, transfer).value;
      var target := FindLayout(remaining, transfer.targetWorkspaceId);
      target < |remaining| && InsertTree(remaining[target], Extracted(layouts[s], transfer), transfer).Some?
    ensures var remaining := WithoutPane(layouts, s, transfer).value;
      var target := FindLayout(remaining, transfer.targetWorkspaceId);
      var grown := InsertTree(remaining[target], Extracted(layouts[s], transfer), transfer).value;
      AllHeld(remaining[target := grown], item) == AllHeld(layouts, item)
  {
    hide InsertTree, WithoutPane, Extracted, ValidLayout, Held, AllHeld;
    WithoutPaneLacksIt(layouts, s, transfer, item);
    var remaining := WithoutPane(layouts, s, transfer).value;
    var target := FindLayout(remaining, transfer.targetWorkspaceId);
    var extracted := Extracted(layouts[s], transfer);
    InsertJoins(remaining[target], extracted, transfer, item);
    AllHeldUpdate(remaining, target, InsertTree(remaining[target], extracted, transfer).value, item);
  }

  lemma {:induction false} ExtractKeeps(layouts: seq<Layout>, s: nat, transfer: Transfer, item: Item)
    requires s < |layouts| && UniqueLayoutIds(layouts) && layouts[s].id == transfer.sourceWorkspaceId
    requires ValidLayout(layouts[s]) && IsLeaf(layouts[s].nodes, transfer.sourcePaneId)
    requires WithoutPane(layouts, s, transfer).Some?
    ensures AllHeld(WithoutPane(layouts, s, transfer).value + [Extracted(layouts[s], transfer)], item) == AllHeld(layouts, item)
  {
    WithoutPaneLacksIt(layouts, s, transfer, item);
    var extracted := Extracted(layouts[s], transfer);
    AllHeldAppend(WithoutPane(layouts, s, transfer).value, [extracted], item);
    assert [extracted][1..] == [];
  }

  /** Success always means a valid state with the target tab active. */
  lemma {:induction false} TransferPublishesValidStates(state: State, transfer: Transfer)
    requires TransferTerminalWorkspace(state, transfer).Some?
    ensures var after := TransferTerminalWorkspace(state, transfer).value;
      && ValidState(after)
      && after.activeTerminalWorkspaceId == transfer.targetWorkspaceId
      && FindLayout(after.terminalWorkspaces, transfer.targetWorkspaceId) < |after.terminalWorkspaces|
      && after.quarantinedRestoreIntentIds == state.quarantinedRestoreIntentIds
      && after.restoreAttemptIntentId == state.restoreAttemptIntentId
  {
    hide ValidState;
    ActiveIsFound(TransferTerminalWorkspace(state, transfer).value);
  }

  lemma {:induction false} ActiveIsFound(state: State)
    requires ValidState(state) && state.activeTerminalWorkspaceId != ""
    ensures FindLayout(state.terminalWorkspaces, state.activeTerminalWorkspaceId) < |state.terminalWorkspaces|
  {
  }

  // ----- panes of different tabs stay apart -----

  /** No pane id occurs twice, neither in one tab nor in two. */
  ghost predicate PanesApart(layouts: seq<Layout>) {
    && (forall item: Item :: item.Pane? ==> AllHeld(layouts, item) <= 1)
    && (forall id: string, x: string, y: string ::
         AllHeld(layouts, Pane(id, x)) > 0 && AllHeld(layouts, Pane(id, y)) > 0 ==> x == y)
  }

  lemma {:induction false} TransferKeepsPanesApart(state: State, transfer: Transfer)
    requires TransferTerminalWorkspace(state, transfer).Some? && PanesApart(state.terminalWorkspaces)
    ensures PanesApart(TransferTerminalWorkspace(state, transfer).value.terminalWorkspaces)
  {
    hide TransferTerminalWorkspace, AllHeld;
    TransferConserves(state, transfer, TransferTerminalWorkspace(state, transfer).value);
  }

  lemma {:induction false} LeafIsHeld(nodes: seq<Node>, k: nat)
    requires k < |nodes| && nodes[k].kind.Leaf?
    ensures InNodes(nodes, Pane(nodes[k].id, nodes[k].restoreIntentId)) > 0
  {
    if k > 0 {
      LeafIsHeld(nodes[1..], k - 1);
    }
  }

  lemma {:induction false} HeldSomewhere(layouts: seq<Layout>, k: nat, item: Item)
    requires k < |layouts|
    ensures AllHeld(layouts, item) >= Held(layouts[k], item)
  {
    hide Held;
    if k > 0 {
      HeldSomewhere(layouts[1..], k - 1, item);
    }
  }

  lemma {:induction false} HeldTwice(layouts: seq<Layout>, i: nat, j: nat, item: Item)
    requires i < j < |layouts|
    ensures AllHeld(layouts, item) >= Held(layouts[i], item) + Held(layouts[j], item)
  {
    hide Held;
    if i > 0 {
      HeldTwice(layouts[1..], i - 1, j - 1, item);
    } else {
      HeldSomewhere(layouts[1..], j - 1, item);
    }
  }

  /** So a pane id determines the tab. */
  lemma {:induction false} PaneDeterminesTab(layouts: seq<Layout>, i: nat, m: nat, j: nat, n: nat)
    requires PanesApart(layouts) && i < |layouts| && j < |layouts| && m < |layouts[i].nodes| && n < |layouts[j].nodes|
    requires layouts[i].nodes[m].kind.Leaf? && layouts[j].nodes[n].kind.Leaf? && layouts[i].nodes[m].id == layouts[j].nodes[n].id
    ensures i == j
  {
    var p, q := layouts[i].nodes[m], layouts[j].nodes[n];
    LeafIsHeld(layouts[i].nodes, m);
    LeafIsHeld(layouts[j].nodes, n);
    var a, b := Pane(p.id, p.restoreIntentId), Pane(q.id, q.restoreIntentId);
    assert Held(layouts[i], a) > 0 && Held(layouts[j], b) > 0;
    hide Held, InNodes;
    HeldSomewhere(layouts, i, a);
    HeldSomewhere(layouts, j, b);
    assert a == b;
    if i < j {
      HeldTwice(layouts, i, j, a);
    } else if j < i {
      HeldTwice(layouts, j, i, a);
    }
  }
}
