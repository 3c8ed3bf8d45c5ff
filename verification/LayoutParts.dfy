/**
 The parts a valid layout consists of, and that a layout put together from such parts is valid.
 The operations on panes end by validating what they have built; this is how it is shown that
 the validation passes.  Likewise for the whole state, read off its tabs.
 */
module LayoutParts {
  import opened WorkspaceState
  import opened PaneTree
  import opened WorkspaceTransfer
  import opened PaneOrder
  import opened TabOrder

  /** What the validator asks of a node apart from its children. */
  predicate NodeFits(node: Node, intentIds: set<string>) {
    && BoundedText(node.id, 128, false)
    && match node.kind
       case Leaf => BoundedText(node.restoreIntentId, 128, false) && node.restoreIntentId in intentIds
       case Split => node.restoreIntentId == "" && 0.2 <= node.ratio <= 0.8
  }

  predicate AllFit(nodes: seq<Node>, intentIds: set<string>) {
    forall k :: 0 <= k < |nodes| ==> NodeFits(nodes[k], intentIds)
  }

  /** The panes with the intents they refer to. */
  function LeafRefs(nodes: seq<Node>): set<(string, string)> {
    set k | 0 <= k < |nodes| && nodes[k].kind.Leaf? :: (nodes[k].id, nodes[k].restoreIntentId)
  }

  predicate RefsMatched(refs: set<(string, string)>, intentIds: set<string>) {
    && (forall p, q :: p in refs && q in refs && p.1 == q.1 ==> p == q)
    && (forall id :: id in intentIds ==> exists p :: p in refs && p.1 == id)
  }

  /** The texts and counts of a layout. */
  predicate FrameInOrder(layout: Layout) {
    && BoundedText(layout.id, 128, false)
    && BoundedText(layout.title, 256, true)
    && BoundedText(layout.manualTitle, 1024, true)
    && BoundedText(layout.windowId, 128, false)
    && BoundedText(layout.returnWorkspaceId, 128, true)
    && 0 < |layout.nodes| <= MAXIMUM_NODES
    && 0 < |layout.restoreIntents| <= MAXIMUM_PANES
    && UniqueIntentIds(layout.restoreIntents)
    && (forall k :: 0 <= k < |layout.restoreIntents| ==> ValidIntent(layout.restoreIntents[k]))
  }

  /** The nodes are exactly this tree. */
  ghost predicate IsWhole(layout: Layout, tree: Tree) {
    SplitsInTree(layout.nodes, tree) && tree.id == layout.rootNodeId && Elements(Ids(tree)) == NodeIds(layout.nodes)
  }

  /** A layout put together from these parts is valid. */
  lemma {:induction false} Assembled(layout: Layout, tree: Tree)
    requires FrameInOrder(layout) && IsWhole(layout, tree) && AllFit(layout.nodes, IntentIds(layout.restoreIntents))
    requires RefsMatched(LeafRefs(layout.nodes), IntentIds(layout.restoreIntents)) && IsLeaf(layout.nodes, layout.activePaneId)
    ensures ValidLayout(layout)
  {
    hide ValidLayout, Elements, Distinct, Grows;
    RootAmongIds(tree);
    assert UniqueNodeIds(layout.nodes);
    FitIdsAreBounded(layout.nodes, IntentIds(layout.restoreIntents), layout.rootNodeId);
    assert layout.nodes[FindNode(layout.nodes, layout.activePaneId)].id == layout.activePaneId;
    FitIdsAreBounded(layout.nodes, IntentIds(layout.restoreIntents), layout.activePaneId);
    forall k | 0 <= k < |layout.nodes|
      ensures NodeInOrder(layout, layout.nodes[k])
    {
      IntentListed(layout.restoreIntents, layout.nodes[k].restoreIntentId);
      if layout.nodes[k].kind.Split? {
        TwoChildren(layout.nodes, tree, k);
      }
    }
    RefsMeanMatched(layout);
    assert Spans(layout, tree);
    hide NodeInOrder, HeaderInOrder, IntentsMatched, Spans;
    assert HeaderInOrder(layout) by {
      assert FrameInOrder(layout);
    }
    ValidExactlyIfWellFormed(layout);
  }

  lemma {:induction false} FitIdsAreBounded(nodes: seq<Node>, intentIds: set<string>, id: string)
    requires AllFit(nodes, intentIds) && id in NodeIds(nodes)
    ensures BoundedText(id, 128, false)
  {
  }

  lemma {:induction false} RefsMeanMatched(layout: Layout)
    requires UniqueNodeIds(layout.nodes)
    ensures RefsMatched(LeafRefs(layout.nodes), IntentIds(layout.restoreIntents)) <==> IntentsMatched(layout)
  {
    var nodes, refs := layout.nodes, LeafRefs(layout.nodes);
    assert forall k :: 0 <= k < |nodes| && nodes[k].kind.Leaf? ==> (nodes[k].id, nodes[k].restoreIntentId) in refs;
    if IntentsMatched(layout) {
      forall p, q | p in refs && q in refs && p.1 == q.1
        ensures p == q
      {
        var i :| 0 <= i < |nodes| && nodes[i].kind.Leaf? && p == (nodes[i].id, nodes[i].restoreIntentId);
        var j :| 0 <= j < |nodes| && nodes[j].kind.Leaf? && q == (nodes[j].id, nodes[j].restoreIntentId);
        assert i == j;
      }
      forall id | id in IntentIds(layout.restoreIntents)
        ensures exists p :: p in refs && p.1 == id
      {
        var k :| 0 <= k < |nodes| && nodes[k].kind.Leaf? && nodes[k].restoreIntentId == id;
        assert (nodes[k].id, id) in refs;
      }
    }
    if RefsMatched(refs, IntentIds(layout.restoreIntents)) {
      forall i, j | 0 <= i < j < |nodes| && nodes[i].kind.Leaf? && nodes[j].kind.Leaf?
        ensures nodes[i].restoreIntentId != nodes[j].restoreIntentId
      {
        assert (nodes[i].id, nodes[i].restoreIntentId) != (nodes[j].id, nodes[j].restoreIntentId);
      }
      forall id | id in IntentIds(layout.restoreIntents)
        ensures exists k :: 0 <= k < |nodes| && nodes[k].kind.Leaf? && nodes[k].restoreIntentId == id
      {
        var p :| p in refs && p.1 == id;
        var k :| 0 <= k < |nodes| && nodes[k].kind.Leaf? && p == (nodes[k].id, nodes[k].restoreIntentId);
      }
    }
  }

  /** And every valid layout consists of such parts. */
  lemma {:induction false} Disassembled(layout: Layout)
    requires ValidLayout(layout)
    ensures FrameInOrder(layout) && IsWhole(layout, TreeOf(layout)) && AllFit(layout.nodes, IntentIds(layout.restoreIntents))
    ensures RefsMatched(LeafRefs(layout.nodes), IntentIds(layout.restoreIntents)) && IsLeaf(layout.nodes, layout.activePaneId)
    ensures |layout.nodes| == |NodeIds(layout.nodes)|
  {
    hide Walk, Elements, Distinct, Grows;
    ValidSplitsInTree(layout);
    ValidIsWellFormed(layout);
    RefsMeanMatched(layout);
    NodeIdsBound(layout.nodes);
    forall k | 0 <= k < |layout.nodes|
      ensures NodeFits(layout.nodes[k], IntentIds(layout.restoreIntents))
    {
      assert NodeInOrder(layout, layout.nodes[k]);
      IntentListed(layout.restoreIntents, layout.nodes[k].restoreIntentId);
    }
  }

  // ----- the lists of nodes and intents -----

  lemma {:induction false} IntentListed(intents: seq<Intent>, id: string)
    ensures id in IntentIds(intents) <==> FindIntent(intents, id) < |intents|
  {
  }

  lemma {:induction false} LeafListed(nodes: seq<Node>, id: string)
    requires IsLeaf(nodes, id)
    ensures id in NodeIds(nodes)
  {
    assert nodes[FindNode(nodes, id)].id == id;
  }

  lemma {:induction false} SpareIds(nodes: seq<Node>, a: string, parentId: string, siblingId: string)
    requires UniqueNodeIds(nodes)
    ensures NodeIds(Spare(nodes, a, parentId, siblingId)) == NodeIds(nodes) - {a, parentId}
    ensures |Spare(nodes, a, parentId, siblingId)| <= |nodes|
  {
    var spare := Spare(nodes, a, parentId, siblingId);
    ErasedIsRedirected(nodes, a, parentId, siblingId);
    ErasedIsShorter(RedirectAll(nodes, parentId, siblingId), a, parentId);
    hide Spare;
    forall k | 0 <= k < |spare|
      ensures spare[k].id in NodeIds(nodes) - {a, parentId}
    {
      var j := SpareOrigin(nodes, a, parentId, siblingId, k);
    }
    forall k | 0 <= k < |nodes| && nodes[k].id != a && nodes[k].id != parentId
      ensures nodes[k].id in NodeIds(spare)
    {
      assert Lookup(spare, nodes[k].id) == Some(Redirect(nodes[k], parentId, siblingId));
    }
  }

  lemma {:induction false} ErasedIsShorter(nodes: seq<Node>, a: string, b: string)
    ensures |EraseNodes(nodes, a, b)| <= |nodes|
  {
    if nodes != [] {
      ErasedIsShorter(nodes[1..], a, b);
    }
  }

  lemma {:induction false} SpareKeeps(nodes: seq<Node>, a: string, parentId: string, siblingId: string, k: nat) returns (at: nat)
    requires UniqueNodeIds(nodes) && k < |nodes| && nodes[k].id != a && nodes[k].id != parentId
    ensures at < |Spare(nodes, a, parentId, siblingId)| && Spare(nodes, a, parentId, siblingId)[at] == Redirect(nodes[k], parentId, siblingId)
  {
    hide FindNode, EraseNodes, UniqueNodeIds;
    ErasedIsRedirected(nodes, a, parentId, siblingId);
    at := FindNode(Spare(nodes, a, parentId, siblingId), nodes[k].id);
  }

  /** Splicing out a split and possibly erasing a pane takes away exactly this pane and spoils no node. */
  lemma {:induction false} SpareParts(nodes: seq<Node>, a: string, parent: Node, siblingId: string, ids: set<string>)
    requires UniqueNodeIds(nodes) && Lookup(nodes, parent.id) == Some(parent) && parent.kind.Split? && AllFit(nodes, ids)
    ensures var spare := Spare(nodes, a, parent.id, siblingId);
      LeafRefs(spare) == (set p | p in LeafRefs(nodes) && p.0 != a) && AllFit(spare, ids)
  {
    hide BoundedText, Spare, UniqueNodeIds, FindNode;
    var id := parent.id;
    var spare := Spare(nodes, a, id, siblingId);
    forall k | 0 <= k < |spare|
      ensures NodeFits(spare[k], ids)
      ensures spare[k].kind.Leaf? ==> (spare[k].id, spare[k].restoreIntentId) in LeafRefs(nodes) && spare[k].id != a
    {
      var j := SpareOrigin(nodes, a, id, siblingId, k);
    }
    forall k | 0 <= k < |nodes| && nodes[k].kind.Leaf? && nodes[k].id != a
      ensures (nodes[k].id, nodes[k].restoreIntentId) in LeafRefs(spare)
    {
      LookupMember(nodes, k);
      var at := SpareKeeps(nodes, a, id, siblingId, k);
    }
  }

  // ----- validity of the whole state, read off its tabs -----

  function AllIntents(layouts: seq<Layout>): seq<Intent> {
    if layouts == [] then [] else layouts[0].restoreIntents + AllIntents(layouts[1..])
  }

  lemma {:induction false} IntentsCounted(layouts: seq<Layout>)
    ensures |AllIntents(layouts)| == IntentCount(layouts)
  {
    if layouts != [] {
      IntentsCounted(layouts[1..]);
    }
  }

  lemma {:induction false} IntentsContained(layouts: seq<Layout>, id: string)
    ensures ContainsIntent(layouts, id) <==> exists intent :: intent in AllIntents(layouts) && intent.id == id
  {
    if layouts == [] {
      return;
    }
    IntentsContained(layouts[1..], id);
    if ContainsIntent(layouts, id) {
      var k :| 0 <= k < |layouts| && id in IntentIds(layouts[k].restoreIntents);
      if k == 0 {
        var n :| 0 <= n < |layouts[0].restoreIntents| && layouts[0].restoreIntents[n].id == id;
        assert layouts[0].restoreIntents[n] in AllIntents(layouts);
      } else {
        assert id in IntentIds(layouts[1..][k - 1].restoreIntents);
      }
    }
    if exists intent :: intent in AllIntents(layouts) && intent.id == id {
      var intent :| intent in AllIntents(layouts) && intent.id == id;
      if intent in layouts[0].restoreIntents {
        assert id in IntentIds(layouts[0].restoreIntents);
      } else {
        var k :| 0 <= k < |layouts[1..]| && id in IntentIds(layouts[1..][k].restoreIntents);
        assert id in IntentIds(layouts[k + 1].restoreIntents);
      }
    }
  }

  /** An intent that may be remembered: some tab has it. */
  predicate Remembered(state: State, id: string) {
    BoundedText(id, 128, false) && exists intent :: intent in AllIntents(state.terminalWorkspaces) && intent.id == id
  }

  /**
   A state is valid exactly if its at most 32 tabs are valid and distinct and have at most 32 restore
   intents together, the quarantined intents and the attempted one are intents of these tabs, none
   quarantined twice, and the active tab is one of the tabs; without tabs there is nothing else.
   */
  lemma {:induction false} StateValidExactly(state: State)
    ensures ValidState(state) <==>
      var tabs, quarantined := state.terminalWorkspaces, state.quarantinedRestoreIntentIds;
      && |tabs| <= 32 && |AllIntents(tabs)| <= 32 && |quarantined| <= 32
      && (forall tab :: tab in tabs ==> ValidLayout(tab))
      && Distinct(TabIds(tabs))
      && Distinct(quarantined)
      && (forall id :: id in quarantined ==> Remembered(state, id))
      && (state.restoreAttemptIntentId == "" || Remembered(state, state.restoreAttemptIntentId))
      && (if tabs == [] then state.activeTerminalWorkspaceId == "" && quarantined == [] && state.restoreAttemptIntentId == ""
          else state.activeTerminalWorkspaceId in TabIds(tabs))
  {
    hide ValidLayout, BoundedText, IntentCount, ContainsIntent, AllIntents;
    var tabs, quarantined := state.terminalWorkspaces, state.quarantinedRestoreIntentIds;
    IntentsCounted(tabs);
    forall id
      ensures ContainsIntent(tabs, id) && BoundedText(id, 128, false) <==> Remembered(state, id)
    {
      IntentsContained(tabs, id);
    }
    ActiveListed(tabs, state.activeTerminalWorkspaceId);
    assert UniqueLayoutIds(tabs) <==> forall i, j :: 0 <= i < j < |TabIds(tabs)| ==> TabIds(tabs)[i] != TabIds(tabs)[j];
  }

  lemma {:induction false} ActiveListed(layouts: seq<Layout>, id: string)
    ensures id in TabIds(layouts) <==> FindLayout(layouts, id) < |layouts|
  {
    var k := FindLayout(layouts, id);
    if k < |layouts| {
      assert TabIds(layouts)[k] == id;
    }
  }
}
