/**
 The persistent workspace state: tabs ("workspaces"), each a binary split tree of panes that is
 stored as a flat node list, and each shown in one window.
 */
module WorkspaceState {

  datatype Option<+T> = None | Some(value: T)

  const MAXIMUM_TERMINAL_WORKSPACES := 32
  const MAXIMUM_PANES := 8
  const MAXIMUM_NODES := 15
  const MAXIMUM_SESSIONS := 32

  datatype RestoreKind = Local | SshProfile | Transient

  datatype Intent = Intent(id: string, profileId: string, title: string, kind: RestoreKind, manualTitle: string)

  datatype NodeKind = Leaf | Split

  datatype Orientation = Horizontal | Vertical

  datatype Node = Node(
    id: string,
    restoreIntentId: string,
    firstChildId: string,
    secondChildId: string,
    kind: NodeKind,
    orientation: Orientation,
    ratio: real)

  datatype Layout = Layout(
    id: string,
    title: string,
    rootNodeId: string,
    activePaneId: string,
    nodes: seq<Node>,
    restoreIntents: seq<Intent>,
    windowId: string,
    returnWorkspaceId: string,
    manualTitle: string)

  datatype State = State(
    terminalWorkspaces: seq<Layout>,
    activeTerminalWorkspaceId: string,
    quarantinedRestoreIntentIds: seq<string>,
    restoreAttemptIntentId: string)

  // ----- lookups: the first entry with the id -----

  function FindLayout(layouts: seq<Layout>, id: string): (k: nat)
    ensures k <= |layouts|
    ensures k < |layouts| ==> layouts[k].id == id
    ensures forall i :: 0 <= i < k ==> layouts[i].id != id
  {
    if layouts == [] || layouts[0].id == id then 0 else 1 + FindLayout(layouts[1..], id)
  }

  function FindNode(nodes: seq<Node>, id: string): (k: nat)
    ensures k <= |nodes|
    ensures k < |nodes| ==> nodes[k].id == id
    ensures forall i :: 0 <= i < k ==> nodes[i].id != id
  {
    if nodes == [] || nodes[0].id == id then 0 else 1 + FindNode(nodes[1..], id)
  }

  function FindIntent(intents: seq<Intent>, id: string): (k: nat)
    ensures k <= |intents|
    ensures k < |intents| ==> intents[k].id == id
    ensures forall i :: 0 <= i < k ==> intents[i].id != id
  {
    if intents == [] || intents[0].id == id then 0 else 1 + FindIntent(intents[1..], id)
  }

  predicate UniqueLayoutIds(layouts: seq<Layout>) {
    forall i, j :: 0 <= i < j < |layouts| ==> layouts[i].id != layouts[j].id
  }

  predicate UniqueNodeIds(nodes: seq<Node>) {
    forall i, j :: 0 <= i < j < |nodes| ==> nodes[i].id != nodes[j].id
  }

  predicate UniqueIntentIds(intents: seq<Intent>) {
    forall i, j :: 0 <= i < j < |intents| ==> intents[i].id != intents[j].id
  }

  // ----- validity -----

  predicate BoundedText(value: string, maximumLength: nat, allowEmpty: bool) {
    (allowEmpty || value != "") && |value| <= maximumLength && '\0' !in value
  }

  predicate ValidIntent(intent: Intent) {
    && BoundedText(intent.id, 128, false)
    && BoundedText(intent.title, 256, true)
    && BoundedText(intent.profileId, 256, true)
    && BoundedText(intent.manualTitle, 1024, true)
    && if intent.kind.SshProfile? then intent.profileId != "" else intent.kind.Local? || intent.profileId == ""
  }

  function NodeIds(nodes: seq<Node>): set<string> {
    set k | 0 <= k < |nodes| :: nodes[k].id
  }

  function IntentIds(intents: seq<Intent>): set<string> {
    set k | 0 <= k < |intents| :: intents[k].id
  }

  /** What the walk checks of a single node, apart from its place in the tree. */
  predicate NodeInOrder(layout: Layout, node: Node) {
    && BoundedText(node.id, 128, false)
    && match node.kind
       case Leaf =>
         && node.firstChildId == "" && node.secondChildId == ""
         && BoundedText(node.restoreIntentId, 128, false)
         && FindIntent(layout.restoreIntents, node.restoreIntentId) < |layout.restoreIntents|
       case Split =>
         && node.restoreIntentId == "" && node.firstChildId != node.secondChildId
         && 0.2 <= node.ratio <= 0.8
  }

  /**
   The depth-first walk over the node list.  `pending` is the stack, top first; it rejects a
   node reached twice, an intent referenced twice, and a stack beyond its capacity.  At the end
   every node must have been visited and every intent referenced.
   */
  predicate Walk(layout: Layout, pending: seq<Node>, visited: set<string>, referenced: set<string>)
    requires forall k :: 0 <= k < |pending| ==> pending[k].id in NodeIds(layout.nodes)
    decreases NodeIds(layout.nodes) - visited
  {
    if pending == [] then |visited| == |layout.nodes| && |referenced| == |layout.restoreIntents|
    else
      var node, rest := pending[0], pending[1..];
      && node.id !in visited
      && NodeInOrder(layout, node)
      && match node.kind
         case Leaf =>
           node.restoreIntentId !in referenced
           && Walk(layout, rest, visited + {node.id}, referenced + {node.restoreIntentId})
         case Split =>
           var first, second := FindNode(layout.nodes, node.firstChildId), FindNode(layout.nodes, node.secondChildId);
           && first < |layout.nodes| && second < |layout.nodes| && |rest| + 2 <= MAXIMUM_NODES
           && Walk(layout, [layout.nodes[first], layout.nodes[second]] + rest, visited + {node.id}, referenced)
  }

  predicate HeaderInOrder(layout: Layout) {
    && BoundedText(layout.id, 128, false)
    && BoundedText(layout.title, 256, true)
    && BoundedText(layout.manualTitle, 1024, true)
    && BoundedText(layout.windowId, 128, false)
    && BoundedText(layout.returnWorkspaceId, 128, true)
    && BoundedText(layout.rootNodeId, 128, false)
    && BoundedText(layout.activePaneId, 128, false)
    && 0 < |layout.nodes| <= MAXIMUM_NODES
    && 0 < |layout.restoreIntents| <= MAXIMUM_PANES
    && UniqueNodeIds(layout.nodes)
    && UniqueIntentIds(layout.restoreIntents)
    && (forall k :: 0 <= k < |layout.restoreIntents| ==> ValidIntent(layout.restoreIntents[k]))
  }

  predicate IsLeaf(nodes: seq<Node>, id: string) {
    var k := FindNode(nodes, id);
    k < |nodes| && nodes[k].kind.Leaf?
  }

  predicate ValidLayout(layout: Layout) {
    && HeaderInOrder(layout)
    && FindNode(layout.nodes, layout.rootNodeId) < |layout.nodes|
    && Walk(layout, [layout.nodes[FindNode(layout.nodes, layout.rootNodeId)]], {}, {})
    && IsLeaf(layout.nodes, layout.activePaneId)
  }

  /** The validator's loop. */
  method ValidTerminalWorkspaceLayout(layout: Layout) returns (valid: bool)
    ensures valid == ValidLayout(layout)
  {
    if !HeaderInOrder(layout) {
      return false;
    }
    var root := FindNode(layout.nodes, layout.rootNodeId);
    if root == |layout.nodes| {
      return false;
    }
    hide HeaderInOrder, NodeInOrder;
    var pending := [layout.nodes[root]];
    var visited: set<string>, referenced: set<string> := {}, {};
    while pending != []
      invariant forall k :: 0 <= k < |pending| ==> pending[k].id in NodeIds(layout.nodes)
      invariant Walk(layout, pending, visited, referenced) == Walk(layout, [layout.nodes[root]], {}, {})
      decreases NodeIds(layout.nodes) - visited
    {
      var node := pending[0];
      if node.id in visited || !NodeInOrder(layout, node) {
        return false;
      }
      match node.kind {
        case Leaf =>
          if node.restoreIntentId in referenced {
            return false;
          }
          pending := pending[1..];
          referenced := referenced + {node.restoreIntentId};
        case Split =>
          var first, second := FindNode(layout.nodes, node.firstChildId), FindNode(layout.nodes, node.secondChildId);
          if first == |layout.nodes| || second == |layout.nodes| || |pending| + 1 > MAXIMUM_NODES {
            return false;
          }
          pending := [layout.nodes[first], layout.nodes[second]] + pending[1..];
      }
      visited := visited + {node.id};
    }
    return |visited| == |layout.nodes| && |referenced| == |layout.restoreIntents| && IsLeaf(layout.nodes, layout.activePaneId);
  }

  function IntentCount(layouts: seq<Layout>): nat {
    if layouts == [] then 0 else |layouts[0].restoreIntents| + IntentCount(layouts[1..])
  }

  predicate ContainsIntent(layouts: seq<Layout>, id: string) {
    exists k :: 0 <= k < |layouts| && id in IntentIds(layouts[k].restoreIntents)
  }

  predicate ValidState(state: State) {
    && |state.terminalWorkspaces| <= MAXIMUM_TERMINAL_WORKSPACES
    && |state.quarantinedRestoreIntentIds| <= MAXIMUM_SESSIONS
    && (forall k :: 0 <= k < |state.terminalWorkspaces| ==> ValidLayout(state.terminalWorkspaces[k]))
    && IntentCount(state.terminalWorkspaces) <= MAXIMUM_SESSIONS
    && UniqueLayoutIds(state.terminalWorkspaces)
    && (forall k :: 0 <= k < |state.quarantinedRestoreIntentIds| ==>
         && BoundedText(state.quarantinedRestoreIntentIds[k], 128, false)
         && ContainsIntent(state.terminalWorkspaces, state.quarantinedRestoreIntentIds[k]))
    && (forall i, j :: 0 <= i < j < |state.quarantinedRestoreIntentIds| ==>
         state.quarantinedRestoreIntentIds[i] != state.quarantinedRestoreIntentIds[j])
    && (state.restoreAttemptIntentId != "" ==>
         && BoundedText(state.restoreAttemptIntentId, 128, false)
         && ContainsIntent(state.terminalWorkspaces, state.restoreAttemptIntentId))
    && if state.terminalWorkspaces == [] then
         state.activeTerminalWorkspaceId == "" && state.quarantinedRestoreIntentIds == [] && state.restoreAttemptIntentId == ""
       else
         FindLayout(state.terminalWorkspaces, state.activeTerminalWorkspaceId) < |state.terminalWorkspaces|
  }

  lemma {:induction false} IntentCountSplit(layouts: seq<Layout>, k: nat)
    requires k < |layouts|
    ensures IntentCount(layouts[..k + 1]) == IntentCount(layouts[..k]) + |layouts[k].restoreIntents|
    ensures IntentCount(layouts[..k]) <= IntentCount(layouts)
  {
    if k == 0 {
      assert layouts[..1][1..] == [] && layouts[..0] == [];
    } else {
      IntentCountSplit(layouts[1..], k - 1);
      assert layouts[..k + 1][1..] == layouts[1..][..k] && layouts[..k][1..] == layouts[1..][..k - 1];
    }
  }

  /** The validator of the whole state. */
  method ValidWorkspaceState(state: State) returns (valid: bool)
    ensures valid <==> ValidState(state)
  {
    hide ValidLayout, BoundedText, IntentCount, ContainsIntent, FindLayout;
    var layouts, quarantined := state.terminalWorkspaces, state.quarantinedRestoreIntentIds;
    if |layouts| > MAXIMUM_TERMINAL_WORKSPACES || |quarantined| > MAXIMUM_SESSIONS {
      return false;
    }
    for k := 0 to |layouts|
      invariant forall i :: 0 <= i < k ==> ValidLayout(layouts[i])
    {
      var layoutValid := ValidTerminalWorkspaceLayout(layouts[k]);
      if !layoutValid {
        return false;
      }
    }
    var restoreIntentCount := 0;
    NoIntents();
    assert layouts[..0] == [];
    for k := 0 to |layouts|
      invariant restoreIntentCount == IntentCount(layouts[..k]) <= MAXIMUM_SESSIONS
      invariant forall i, j :: 0 <= i < k && i < j < |layouts| ==> layouts[i].id != layouts[j].id
    {
      IntentCountSplit(layouts, k);
      restoreIntentCount := restoreIntentCount + |layouts[k].restoreIntents|;
      if restoreIntentCount > MAXIMUM_SESSIONS {
        CountedIn(layouts, k);
        return false;
      }
      var twin := FindLayout(layouts[k + 1..], layouts[k].id);
      if twin < |layouts[k + 1..]| {
        assert layouts[k + 1 + twin].id == layouts[k].id;
        return false;
      }
      assert forall j :: k < j < |layouts| ==> layouts[j] == layouts[k + 1..][j - k - 1];
    }
    assert layouts[..|layouts|] == layouts;
    for k := 0 to |quarantined|
      invariant forall i :: 0 <= i < k ==> BoundedText(quarantined[i], 128, false) && ContainsIntent(layouts, quarantined[i])
      invariant forall i, j :: 0 <= i < k && i < j < |quarantined| ==> quarantined[i] != quarantined[j]
    {
      if !BoundedText(quarantined[k], 128, false) || !ContainsIntent(layouts, quarantined[k]) || quarantined[k] in quarantined[k + 1..] {
        return false;
      }
      assert forall j :: k < j < |quarantined| ==> quarantined[j] == quarantined[k + 1..][j - k - 1];
    }
    if state.restoreAttemptIntentId != ""
       && (!BoundedText(state.restoreAttemptIntentId, 128, false) || !ContainsIntent(layouts, state.restoreAttemptIntentId)) {
      return false;
    }
    if layouts == [] {
      return state.activeTerminalWorkspaceId == "" && quarantined == [] && state.restoreAttemptIntentId == "";
    }
    return FindLayout(layouts, state.activeTerminalWorkspaceId) < |layouts|;
  }

  lemma {:induction false} NoIntents()
    ensures IntentCount([]) == 0
  {
  }

  lemma {:induction false} CountedIn(layouts: seq<Layout>, k: nat)
    requires k < |layouts|
    ensures IntentCount(layouts[..k + 1]) <= IntentCount(layouts)
  {
    if k + 1 < |layouts| {
      IntentCountSplit(layouts, k + 1);
    } else {
      assert layouts[..k + 1] == layouts;
    }
  }

  // ----- what a restore intent must be -----

  predicate WithoutNul(text: string) {
    forall k :: 0 <= k < |text| ==> text[k] != '\0'
  }

  /** A restore intent names a profile if it is for one, and none if it is for a transient session. */
  lemma {:induction false} IntentValidExactly(intent: Intent)
    ensures ValidIntent(intent) <==>
      && 1 <= |intent.id| <= 128 && |intent.title| <= 256 && |intent.profileId| <= 256 && |intent.manualTitle| <= 1024
      && WithoutNul(intent.id) && WithoutNul(intent.title) && WithoutNul(intent.profileId) && WithoutNul(intent.manualTitle)
      && match intent.kind
         case Local => true
         case SshProfile => intent.profileId != ""
         case Transient => intent.profileId == ""
  {
  }
}
