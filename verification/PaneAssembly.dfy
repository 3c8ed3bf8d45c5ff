/**
 When the edits of a tab succeed.  Each of them ends by validating what it has built; here it is
 shown from which inputs the built layout is valid, so that success can be read off the inputs.
 */
module PaneAssembly {
  import opened WorkspaceState
  import opened PaneTree
  import opened WorkspaceTransfer
  import opened PaneOrder
  import opened LayoutParts
  import opened PaneClosing

  // ----- lists of nodes and intents -----

  lemma {:induction false} NodeIdsAppend(a: seq<Node>, b: seq<Node>)
    ensures NodeIds(a + b) == NodeIds(a) + NodeIds(b)
    ensures LeafRefs(a + b) == LeafRefs(a) + LeafRefs(b)
    ensures UniqueNodeIds(a + b) <==> UniqueNodeIds(a) && UniqueNodeIds(b) && NodeIds(a) !! NodeIds(b)
  {
    var all := a + b;
    assert forall k :: 0 <= k < |a| ==> all[k] == a[k];
    forall k | 0 <= k < |b|
      ensures all[|a| + k] == b[k] && b[k].id in NodeIds(all)
      ensures b[k].kind.Leaf? ==> (b[k].id, b[k].restoreIntentId) in LeafRefs(all)
    {
      assert all[|a| + k] == b[k];
    }
    if UniqueNodeIds(all) {
      forall i, j | 0 <= i < j < |b|
        ensures b[i].id != b[j].id
      {
        assert all[|a| + i].id != all[|a| + j].id;
      }
      forall i, j | 0 <= i < |a| && 0 <= j < |b|
        ensures a[i].id != b[j].id
      {
        assert all[i].id != all[|a| + j].id;
      }
    }
    if UniqueNodeIds(a) && UniqueNodeIds(b) && NodeIds(a) !! NodeIds(b) {
      forall i, j | 0 <= i < j < |all|
        ensures all[i].id != all[j].id
      {
        if i < |a| <= j {
          assert a[i].id in NodeIds(a) && b[j - |a|].id in NodeIds(b);
        }
      }
    }
  }

  lemma {:induction false} IntentIdsAppend(a: seq<Intent>, b: seq<Intent>)
    ensures IntentIds(a + b) == IntentIds(a) + IntentIds(b)
    ensures UniqueIntentIds(a + b) <==> UniqueIntentIds(a) && UniqueIntentIds(b) && IntentIds(a) !! IntentIds(b)
  {
    var all := a + b;
    assert forall k :: 0 <= k < |a| ==> all[k] == a[k];
    forall k | 0 <= k < |b|
      ensures all[|a| + k] == b[k] && b[k].id in IntentIds(all)
    {
      assert all[|a| + k] == b[k];
    }
    if UniqueIntentIds(all) {
      forall i, j | 0 <= i < j < |b|
        ensures b[i].id != b[j].id
      {
        assert all[|a| + i].id != all[|a| + j].id;
      }
      forall i, j | 0 <= i < |a| && 0 <= j < |b|
        ensures a[i].id != b[j].id
      {
        assert all[i].id != all[|a| + j].id;
      }
    }
    if UniqueIntentIds(a) && UniqueIntentIds(b) && IntentIds(a) !! IntentIds(b) {
      forall i, j | 0 <= i < j < |all|
        ensures all[i].id != all[j].id
      {
        if i < |a| <= j {
          assert a[i].id in IntentIds(a) && b[j - |a|].id in IntentIds(b);
        }
      }
    }
  }

  /** Redirecting children changes nothing else. */
  lemma {:induction false} RedirectedParts(nodes: seq<Node>, x: string, y: string)
    ensures var all := RedirectAll(nodes, x, y);
      && NodeIds(all) == NodeIds(nodes) && LeafRefs(all) == LeafRefs(nodes)
      && (UniqueNodeIds(all) <==> UniqueNodeIds(nodes))
      && forall ids :: AllFit(all, ids) <==> AllFit(nodes, ids)
  {
    var all := RedirectAll(nodes, x, y);
    assert forall k :: 0 <= k < |nodes| ==> all[k] == Redirect(nodes[k], x, y);
    hide RedirectAll, BoundedText;
    assert LeafRefs(all) == LeafRefs(nodes);
    forall ids
      ensures AllFit(all, ids) <==> AllFit(nodes, ids)
    {
      forall k | 0 <= k < |nodes|
        ensures NodeFits(all[k], ids) <==> NodeFits(nodes[k], ids)
      {
      }
    }
  }

  // ----- grafting a tree -----

  lemma {:induction false} GraftNothing(tree: Tree, at: string, splitId: string, other: Tree, placeAfter: bool)
    requires at !in Elements(Ids(tree))
    ensures Graft(tree, at, splitId, other, placeAfter) == tree
  {
    RootAmongIds(tree);
    if tree.Fork? {
      ElementsOfFork(tree.id, tree.first, tree.second);
      hide Elements;
      GraftNothing(tree.first, at, splitId, other, placeAfter);
      GraftNothing(tree.second, at, splitId, other, placeAfter);
    }
  }

  /** Grafting adds the new split and the other tree. */
  lemma {:induction false} GraftIds(nodes: seq<Node>, tree: Tree, at: string, splitId: string, other: Tree, placeAfter: bool)
    requires Grows(nodes, tree) && IsLeaf(nodes, at) && at in Elements(Ids(tree))
    requires Distinct(Ids(tree)) && Distinct(Ids(other)) && Elements(Ids(tree)) !! Elements(Ids(other))
    requires splitId !in Elements(Ids(tree)) && splitId !in Elements(Ids(other))
    ensures var grafted := Graft(tree, at, splitId, other, placeAfter);
      Distinct(Ids(grafted)) && Elements(Ids(grafted)) == Elements(Ids(tree)) + {splitId} + Elements(Ids(other))
  {
    hide Distinct, Elements, FindNode;
    if tree.Tip? {
      TipIds(tree.id);
      DistinctFork(splitId, tree, other);
      DistinctFork(splitId, other, tree);
      ElementsOfFork(splitId, tree, other);
      ElementsOfFork(splitId, other, tree);
      return;
    }
    var first, second := tree.first, tree.second;
    DistinctFork(tree.id, first, second);
    ElementsOfFork(tree.id, first, second);
    DistinctFork(tree.id, Graft(first, at, splitId, other, placeAfter), Graft(second, at, splitId, other, placeAfter));
    ElementsOfFork(tree.id, Graft(first, at, splitId, other, placeAfter), Graft(second, at, splitId, other, placeAfter));
    if at in Elements(Ids(first)) {
      GraftIds(nodes, first, at, splitId, other, placeAfter);
      GraftNothing(second, at, splitId, other, placeAfter);
    } else {
      GraftIds(nodes, second, at, splitId, other, placeAfter);
      GraftNothing(first, at, splitId, other, placeAfter);
    }
  }

  // ----- inserting -----

  /** What inserting needs of the source: a whole tree of panes with their intents. */
  ghost predicate IsInsertable(source: Layout, tree: Tree) {
    && IsWhole(source, tree) && AllFit(source.nodes, IntentIds(source.restoreIntents))
    && RefsMatched(LeafRefs(source.nodes), IntentIds(source.restoreIntents)) && IsLeaf(source.nodes, source.activePaneId)
    && UniqueIntentIds(source.restoreIntents)
    && forall k :: 0 <= k < |source.restoreIntents| ==> ValidIntent(source.restoreIntents[k])
  }

  /** When the source can be inserted: a target pane, a new split id, nothing in common, and room for all. */
  predicate InsertPossible(target: Layout, source: Layout, transfer: Transfer) {
    && IsLeaf(target.nodes, transfer.targetPaneId) && BoundedText(transfer.splitNodeId, 128, false)
    && NodeIds(target.nodes) !! NodeIds(source.nodes)
    && transfer.splitNodeId !in NodeIds(target.nodes) && transfer.splitNodeId !in NodeIds(source.nodes)
    && IntentIds(target.restoreIntents) !! IntentIds(source.restoreIntents)
    && |target.nodes| + |source.nodes| + 1 <= MAXIMUM_NODES
    && |target.restoreIntents| + |source.restoreIntents| <= MAXIMUM_PANES
  }

  function NewSplit(source: Layout, transfer: Transfer): Node {
    SplitNode(transfer.splitNodeId, if transfer.placeAfter then transfer.targetPaneId else source.rootNodeId,
              if transfer.placeAfter then source.rootNodeId else transfer.targetPaneId, transfer.orientation)
  }

  /** What inserting builds, before it is validated. */
  function Grown(target: Layout, source: Layout, transfer: Transfer): Layout {
    target.(rootNodeId := RedirectId(target.rootNodeId, transfer.targetPaneId, transfer.splitNodeId),
            nodes := RedirectAll(target.nodes, transfer.targetPaneId, transfer.splitNodeId) + source.nodes + [NewSplit(source, transfer)],
            restoreIntents := target.restoreIntents + source.restoreIntents,
            activePaneId := source.activePaneId)
  }

  lemma {:induction false} InsertValidatesGrown(target: Layout, source: Layout, transfer: Transfer)
    ensures InsertTree(target, source, transfer)
      == if IsLeaf(target.nodes, transfer.targetPaneId) && transfer.splitNodeId != "" && ValidLayout(Grown(target, source, transfer))
         then Some(Grown(target, source, transfer)) else None
  {
    hide ValidLayout, IsLeaf;
  }

  lemma {:induction false} GrownNodes(target: Layout, source: Layout, transfer: Transfer)
    ensures var nodes := Grown(target, source, transfer).nodes;
      && NodeIds(nodes) == NodeIds(target.nodes) + NodeIds(source.nodes) + {transfer.splitNodeId}
      && LeafRefs(nodes) == LeafRefs(target.nodes) + LeafRefs(source.nodes)
      && (UniqueNodeIds(nodes) <==>
           && UniqueNodeIds(target.nodes) && UniqueNodeIds(source.nodes) && NodeIds(target.nodes) !! NodeIds(source.nodes)
           && transfer.splitNodeId !in NodeIds(target.nodes) && transfer.splitNodeId !in NodeIds(source.nodes))
  {
    var redirected := RedirectAll(target.nodes, transfer.targetPaneId, transfer.splitNodeId);
    OneNode(NewSplit(source, transfer));
    hide RedirectAll, NodeIds, LeafRefs, UniqueNodeIds;
    RedirectedParts(target.nodes, transfer.targetPaneId, transfer.splitNodeId);
    NodeIdsAppend(redirected, source.nodes);
    NodeIdsAppend(redirected + source.nodes, [NewSplit(source, transfer)]);
  }

  lemma {:induction false} OneNode(node: Node)
    requires node.kind.Split?
    ensures NodeIds([node]) == {node.id} && LeafRefs([node]) == {} && UniqueNodeIds([node])
  {
    assert [node][0].id in NodeIds([node]);
  }

  lemma {:induction false} GrownFits(target: Layout, source: Layout, transfer: Transfer, ids: set<string>, more: set<string>)
    requires AllFit(target.nodes, ids) && AllFit(source.nodes, more) && BoundedText(transfer.splitNodeId, 128, false)
    ensures AllFit(Grown(target, source, transfer).nodes, ids + more)
  {
    hide BoundedText;
    var redirected := RedirectAll(target.nodes, transfer.targetPaneId, transfer.splitNodeId);
    var nodes := Grown(target, source, transfer).nodes;
    RedirectedParts(target.nodes, transfer.targetPaneId, transfer.splitNodeId);
    hide RedirectAll;
    forall k | 0 <= k < |nodes|
      ensures NodeFits(nodes[k], ids + more)
    {
      if k < |redirected| {
        assert nodes[k] == redirected[k] && NodeFits(redirected[k], ids);
      } else if k < |redirected| + |source.nodes| {
        assert nodes[k] == source.nodes[k - |redirected|];
      } else {
        assert nodes[k] == NewSplit(source, transfer);
      }
    }
  }

  lemma {:induction false} MatchedJoin(a: set<(string, string)>, ids: set<string>, b: set<(string, string)>, more: set<string>)
    requires RefsMatched(a, ids) && RefsMatched(b, more) && ids !! more
    requires (forall p :: p in a ==> p.1 in ids) && forall p :: p in b ==> p.1 in more
    ensures RefsMatched(a + b, ids + more)
  {
    forall id | id in ids + more
      ensures exists p :: p in a + b && p.1 == id
    {
      if id in ids {
        var p :| p in a && p.1 == id;
        assert p in a + b;
      } else {
        var p :| p in b && p.1 == id;
        assert p in a + b;
      }
    }
  }

  lemma {:induction false} FitRefs(nodes: seq<Node>, ids: set<string>)
    requires AllFit(nodes, ids)
    ensures forall p :: p in LeafRefs(nodes) ==> p.1 in ids
  {
  }

  lemma {:induction false} GrownIsWhole(target: Layout, source: Layout, tree: Tree, transfer: Transfer)
    requires ValidLayout(target) && IsInsertable(source, tree) && InsertPossible(target, source, transfer)
    ensures IsWhole(Grown(target, source, transfer), Graft(TreeOf(target), transfer.targetPaneId, transfer.splitNodeId, tree, transfer.placeAfter))
    ensures IsLeaf(Grown(target, source, transfer).nodes, source.activePaneId)
  {
    hide ValidLayout, Distinct, Elements, UniqueNodeIds, NodeIds, BoundedText, LeafRefs, RefsMatched, AllFit, IntentIds, UniqueIntentIds, FindNode, Lookup, IsLeaf, RedirectAll, Graft, Ids;
    var at, splitId := transfer.targetPaneId, transfer.splitNodeId;
    var grown := Grown(target, source, transfer);
    var whole := Graft(TreeOf(target), at, splitId, tree, transfer.placeAfter);
    Disassembled(target);
    LeafInTree(target, at);
    InTreeGrows(target.nodes, TreeOf(target));
    InTreeGrows(source.nodes, tree);
    GrownNodes(target, source, transfer);
    PartsOf(target.nodes, at, splitId, source.nodes, NewSplit(source, transfer));
    GrowsAlso(source.nodes, grown.nodes, tree);
    GraftGrows(target.nodes, grown.nodes, TreeOf(target), at, NewSplit(source, transfer), tree, transfer.placeAfter);
    GraftIds(target.nodes, TreeOf(target), at, splitId, tree, transfer.placeAfter);
    GrownSplits(target, source, tree, transfer, whole);
    GrownFocus(target, source, transfer);
  }

  lemma {:induction false} GrownFocus(target: Layout, source: Layout, transfer: Transfer)
    requires UniqueNodeIds(Grown(target, source, transfer).nodes) && IsLeaf(source.nodes, source.activePaneId)
    ensures IsLeaf(Grown(target, source, transfer).nodes, source.activePaneId)
  {
    hide UniqueNodeIds, RedirectAll;
    PartsOf(target.nodes, transfer.targetPaneId, transfer.splitNodeId, source.nodes, NewSplit(source, transfer));
    var active := source.nodes[FindNode(source.nodes, source.activePaneId)];
    assert Lookup(Grown(target, source, transfer).nodes, active.id) == Some(active);
  }

  lemma {:induction false} GrownSplits(target: Layout, source: Layout, tree: Tree, transfer: Transfer, whole: Tree)
    requires ValidLayout(target) && SplitsInTree(target.nodes, TreeOf(target))
    requires SplitsInTree(source.nodes, tree) && transfer.targetPaneId != ""
    requires var nodes := Grown(target, source, transfer).nodes;
      UniqueNodeIds(nodes) && Grows(nodes, whole) && Distinct(Ids(whole)) && NodeIds(nodes) == Elements(Ids(whole))
    ensures SplitsInTree(Grown(target, source, transfer).nodes, whole)
  {
    hide ValidLayout, Distinct, Elements, UniqueNodeIds, Grows;
    var redirected := RedirectAll(target.nodes, transfer.targetPaneId, transfer.splitNodeId);
    var nodes := Grown(target, source, transfer).nodes;
    forall k | 0 <= k < |nodes|
      ensures nodes[k].id in Elements(Ids(whole))
      ensures nodes[k].kind.Leaf? ==> nodes[k].firstChildId == "" && nodes[k].secondChildId == ""
    {
      assert nodes[k].id in NodeIds(nodes);
      if k < |redirected| {
        assert nodes[k] == redirected[k] == Redirect(target.nodes[k], transfer.targetPaneId, transfer.splitNodeId);
      } else if k < |redirected| + |source.nodes| {
        assert nodes[k] == source.nodes[k - |redirected|];
      }
    }
  }

  lemma {:induction false} GrownIsValid(target: Layout, source: Layout, tree: Tree, transfer: Transfer)
    requires ValidLayout(target) && IsInsertable(source, tree) && InsertPossible(target, source, transfer)
    ensures ValidLayout(Grown(target, source, transfer))
  {
    hide ValidLayout, IsWhole, RefsMatched, LeafRefs, AllFit, IntentIds, UniqueIntentIds, NodeIds, BoundedText, RedirectAll, IsLeaf, ValidIntent;
    var grown := Grown(target, source, transfer);
    var ids, more := IntentIds(target.restoreIntents), IntentIds(source.restoreIntents);
    Disassembled(target);
    GrownIsWhole(target, source, tree, transfer);
    GrownNodes(target, source, transfer);
    GrownFits(target, source, transfer, ids, more);
    IntentIdsAppend(target.restoreIntents, source.restoreIntents);
    FitRefs(target.nodes, ids);
    FitRefs(source.nodes, more);
    MatchedJoin(LeafRefs(target.nodes), ids, LeafRefs(source.nodes), more);
    assert FrameInOrder(grown);
    Assembled(grown, Graft(TreeOf(target), transfer.targetPaneId, transfer.splitNodeId, tree, transfer.placeAfter));
  }

  /** Inserting succeeds exactly if it is possible. */
  lemma {:induction false} InsertSucceedsExactly(target: Layout, source: Layout, tree: Tree, transfer: Transfer)
    requires ValidLayout(target) && IsInsertable(source, tree)
    ensures InsertTree(target, source, transfer).Some? <==> InsertPossible(target, source, transfer)
  {
    hide ValidLayout, IsInsertable, IntentIds, UniqueIntentIds, NodeIds, BoundedText, IsLeaf, InsertTree;
    InsertValidatesGrown(target, source, transfer);
    if InsertPossible(target, source, transfer) {
      GrownIsValid(target, source, tree, transfer);
      EmptyIsNotBounded(transfer.splitNodeId);
    }
    if ValidLayout(Grown(target, source, transfer)) {
      ValidMeansPossible(target, source, transfer);
    }
  }

  lemma {:induction false} EmptyIsNotBounded(text: string)
    requires BoundedText(text, 128, false)
    ensures text != ""
  {
  }

  lemma {:induction false} ValidMeansPossible(target: Layout, source: Layout, transfer: Transfer)
    requires ValidLayout(Grown(target, source, transfer))
    ensures BoundedText(transfer.splitNodeId, 128, false)
    ensures NodeIds(target.nodes) !! NodeIds(source.nodes)
    ensures transfer.splitNodeId !in NodeIds(target.nodes) && transfer.splitNodeId !in NodeIds(source.nodes)
    ensures IntentIds(target.restoreIntents) !! IntentIds(source.restoreIntents)
    ensures |target.nodes| + |source.nodes| + 1 <= MAXIMUM_NODES
    ensures |target.restoreIntents| + |source.restoreIntents| <= MAXIMUM_PANES
  {
    hide ValidLayout, IsWhole, RefsMatched, LeafRefs, IntentIds, NodeIds, BoundedText, IsLeaf, ValidIntent, UniqueIntentIds, UniqueNodeIds;
    var grown := Grown(target, source, transfer);
    Disassembled(grown);
    UniqueOfValid(grown);
    GrownNodes(target, source, transfer);
    IntentIdsAppend(target.restoreIntents, source.restoreIntents);
    assert grown.nodes[|grown.nodes| - 1] == NewSplit(source, transfer);
    assert NodeFits(NewSplit(source, transfer), IntentIds(grown.restoreIntents));
  }

  lemma {:induction false} ValidIsInsertable(layout: Layout)
    requires ValidLayout(layout)
    ensures IsInsertable(layout, TreeOf(layout))
  {
    hide ValidLayout, IsWhole, RefsMatched, LeafRefs, IntentIds, AllFit, IsLeaf, ValidIntent, UniqueIntentIds;
    Disassembled(layout);
  }

  // ----- moving inside a tab -----

  predicate MovePossible(layout: Layout, pane: string, target: string, splitId: string) {
    && ValidLayout(layout) && IsLeaf(layout.nodes, pane) && IsLeaf(layout.nodes, target) && pane != target
    && BoundedText(splitId, 128, false) && splitId !in NodeIds(layout.nodes)
  }

  /** A second pane brings a second intent. */
  lemma {:induction false} TwoPanesTwoIntents(layout: Layout, a: string, b: string)
    requires ValidLayout(layout) && IsLeaf(layout.nodes, a) && IsLeaf(layout.nodes, b) && a != b
    ensures |layout.restoreIntents| > 1
  {
    hide ValidLayout, IsWhole, FrameInOrder, BoundedText;
    Disassembled(layout);
    var i, j := FindNode(layout.nodes, a), FindNode(layout.nodes, b);
    var p, q := (a, layout.nodes[i].restoreIntentId), (b, layout.nodes[j].restoreIntentId);
    assert layout.nodes[i].id == a && layout.nodes[j].id == b;
    assert p in LeafRefs(layout.nodes) && q in LeafRefs(layout.nodes);
    assert NodeFits(layout.nodes[i], IntentIds(layout.restoreIntents)) && NodeFits(layout.nodes[j], IntentIds(layout.restoreIntents));
    IntentIdsBound(layout.restoreIntents);
    TwoMembers(IntentIds(layout.restoreIntents), p.1, q.1);
  }

  lemma {:induction false} TwoMembers(s: set<string>, a: string, b: string)
    requires a in s && b in s && a != b
    ensures |s| > 1
  {
    assert {a, b} <= s && |{a, b}| == 2;
    assert |s - {a, b}| + |{a, b}| == |s| by {
      assert (s - {a, b}) + {a, b} == s;
    }
  }

  /** No reference belongs to a split. */
  lemma {:induction false} NoRefTo(nodes: seq<Node>, id: string)
    requires UniqueNodeIds(nodes)
    ensures Lookup(nodes, id).Some? && Lookup(nodes, id).value.kind.Split? ==> forall p :: p in LeafRefs(nodes) ==> p.0 != id
  {
    forall k | 0 <= k < |nodes| && nodes[k].kind.Leaf? && nodes[k].id == id
      ensures Lookup(nodes, id) == Some(nodes[k])
    {
      LookupMember(nodes, k);
    }
  }

  lemma {:induction false} SpareCount(nodes: seq<Node>, parent: nat, siblingId: string)
    requires UniqueNodeIds(nodes) && parent < |nodes| && UniqueNodeIds(Spare(nodes, nodes[parent].id, nodes[parent].id, siblingId))
    ensures |Spare(nodes, nodes[parent].id, nodes[parent].id, siblingId)| == |nodes| - 1
  {
    hide Spare, UniqueNodeIds;
    var id := nodes[parent].id;
    SpareIds(nodes, id, id, siblingId);
    NodeIdsBound(nodes);
    NodeIdsBound(Spare(nodes, id, id, siblingId));
    assert id in NodeIds(nodes);
    assert NodeIds(nodes) == NodeIds(Spare(nodes, id, id, siblingId)) + {id};
  }

  /** What a move builds when the pane is not in place already. */
  ghost function Rehung(layout: Layout, pane: string, target: string, split: Node): Layout
    requires FindParent(layout.nodes, pane) < |layout.nodes|
  {
    var parent := layout.nodes[FindParent(layout.nodes, pane)];
    var siblingId := if parent.firstChildId == pane then parent.secondChildId else parent.firstChildId;
    var promoted := Promote(layout, parent.id, siblingId);
    AttachSplit(promoted.(nodes := EraseNodes(promoted.nodes, parent.id, parent.id)), target, split).(activePaneId := pane)
  }

  lemma {:induction false} RehungNodes(layout: Layout, pane: string, target: string, split: Node)
    requires ValidLayout(layout) && IsLeaf(layout.nodes, pane) && IsLeaf(layout.nodes, target) && pane != target
    requires FindParent(layout.nodes, pane) < |layout.nodes| && split.kind.Split?
    ensures var parent := layout.nodes[FindParent(layout.nodes, pane)];
      var siblingId := if parent.firstChildId == pane then parent.secondChildId else parent.firstChildId;
      var spare := Spare(layout.nodes, parent.id, parent.id, siblingId);
      var pruned := Prune(TreeOf(layout), pane);
      && Rehung(layout, pane, target, split).nodes == RedirectAll(spare, target, split.id) + [split]
      && SplitsInTree(spare, pruned) && target != "" && target in Elements(Ids(pruned)) && IsLeaf(spare, target) && IsLeaf(spare, pane)
      && Elements(Ids(pruned)) == NodeIds(layout.nodes) - {pane, parent.id}
      && Rehung(layout, pane, target, split).rootNodeId == RedirectId(pruned.id, target, split.id)
  {
    hide ValidLayout, Distinct, Elements, OnlyBelow, Forks, SplitsInTree, Spare, FindNode, Grows, Prune, IsLeaf, IsParent, RedirectAll, AttachSplit, Promote, NodeIds;
    var parent := layout.nodes[FindParent(layout.nodes, pane)];
    var siblingId := if parent.firstChildId == pane then parent.secondChildId else parent.firstChildId;
    var promoted := Promote(layout, parent.id, siblingId);
    ParentFound(layout, pane);
    ValidSplitsInTree(layout);
    DissolvedTree(layout, pane, target);
    LeafIsNoParent(layout.nodes, parent, pane, siblingId, pane);
    SpareGrows(layout.nodes, TreeOf(layout), parent.id, pane, parent, siblingId);
    IsSpare(layout.nodes, parent.id, siblingId);
    var dissolved := promoted.(nodes := EraseNodes(promoted.nodes, parent.id, parent.id));
    PromoteReplaces(dissolved, Prune(TreeOf(layout), pane), target, split.id);
    AttachPromotes(dissolved, target, split);
    Disassembled(layout);
  }

  lemma {:induction false} IsSpare(nodes: seq<Node>, parentId: string, siblingId: string)
    ensures Spare(nodes, parentId, parentId, siblingId) == EraseNodes(RedirectAll(nodes, parentId, siblingId), parentId, parentId)
  {
  }

  /** The spare list, with the pane in it but out of the tree. */
  ghost predicate Rehanging(layout: Layout, spare: seq<Node>, pruned: Tree, pane: string, target: string, parentId: string) {
    && SplitsInTree(spare, pruned) && target != "" && target in Elements(Ids(pruned)) && IsLeaf(spare, target) && IsLeaf(spare, pane)
    && Elements(Ids(pruned)) == NodeIds(layout.nodes) - {pane, parentId}
    && NodeIds(spare) == NodeIds(layout.nodes) - {parentId} && pane != parentId && pane in NodeIds(layout.nodes)
    && LeafRefs(spare) == LeafRefs(layout.nodes) && AllFit(spare, IntentIds(layout.restoreIntents))
    && |spare| == |layout.nodes| - 1
  }

  lemma {:induction false} RehangingHolds(layout: Layout, pane: string, target: string, split: Node)
    requires ValidLayout(layout) && IsLeaf(layout.nodes, pane) && IsLeaf(layout.nodes, target) && pane != target
    requires FindParent(layout.nodes, pane) < |layout.nodes| && split.kind.Split?
    ensures var parent := layout.nodes[FindParent(layout.nodes, pane)];
      var siblingId := if parent.firstChildId == pane then parent.secondChildId else parent.firstChildId;
      var spare := Spare(layout.nodes, parent.id, parent.id, siblingId);
      Rehanging(layout, spare, Prune(TreeOf(layout), pane), pane, target, parent.id)
  {
    hide ValidLayout, Distinct, Elements, Spare, FindNode, Prune, UniqueNodeIds, SplitsInTree, IsLeaf, OnlyBelow, Forks, RedirectAll, Rehung, LeafRefs, AllFit;
    var parent := layout.nodes[FindParent(layout.nodes, pane)];
    var siblingId := if parent.firstChildId == pane then parent.secondChildId else parent.firstChildId;
    var spare := Spare(layout.nodes, parent.id, parent.id, siblingId);
    RehungNodes(layout, pane, target, split);
    Disassembled(layout);
    UniqueOfValid(layout);
    InTreeGrows(spare, Prune(TreeOf(layout), pane));
    ParentFound(layout, pane);
    LeafIsNoParent(layout.nodes, parent, pane, siblingId, pane);
    SpareIds(layout.nodes, parent.id, parent.id, siblingId);
    SpareCount(layout.nodes, FindParent(layout.nodes, pane), siblingId);
    SpareParts(layout.nodes, parent.id, parent, siblingId, IntentIds(layout.restoreIntents));
    NoRefTo(layout.nodes, parent.id);
    LeafListed(layout.nodes, pane);
  }

  /** Hung up again, the nodes are one whole tree with the same panes. */
  lemma {:induction false} RehungIsWhole(layout: Layout, spare: seq<Node>, pruned: Tree, pane: string, target: string, parentId: string,
                                         split: Node, placeAfter: bool)
    requires Rehanging(layout, spare, pruned, pane, target, parentId) && split.kind.Split? && split.id !in NodeIds(layout.nodes)
    requires split.firstChildId == (if placeAfter then target else pane) && split.secondChildId == if placeAfter then pane else target
    ensures var nodes := RedirectAll(spare, target, split.id) + [split];
      var whole := Graft(pruned, target, split.id, Tip(pane), placeAfter);
      && SplitsInTree(nodes, whole) && whole.id == RedirectId(pruned.id, target, split.id) && Elements(Ids(whole)) == NodeIds(nodes)
      && IsLeaf(nodes, pane) && LeafRefs(nodes) == LeafRefs(layout.nodes)
  {
    hide Distinct, Elements, FindNode, UniqueNodeIds, SplitsInTree, IsLeaf, RedirectAll, LeafRefs, AllFit, NodeIds, Graft, Ids;
    var whole := Graft(pruned, target, split.id, Tip(pane), placeAfter);
    InTreeGrows(spare, pruned);
    OneNode(split);
    RedirectedParts(spare, target, split.id);
    NodeIdsAppend(RedirectAll(spare, target, split.id), [split]);
    RehungGrows(spare, pruned, pane, target, split, placeAfter);
    TipIds(pane);
    DistinctTip(pane);
    GraftIds(spare, pruned, target, split.id, Tip(pane), placeAfter);
    RehungSplits(spare, pruned, target, split, whole);
  }

  lemma {:induction false} DistinctTip(id: string)
    ensures Distinct(Ids(Tip(id)))
  {
  }

  lemma {:induction false} RehungGrows(spare: seq<Node>, pruned: Tree, pane: string, target: string, split: Node, placeAfter: bool)
    requires SplitsInTree(spare, pruned) && IsLeaf(spare, target) && IsLeaf(spare, pane) && split.kind.Split?
    requires split.firstChildId == (if placeAfter then target else pane) && split.secondChildId == if placeAfter then pane else target
    requires UniqueNodeIds(RedirectAll(spare, target, split.id) + [split])
    ensures var nodes := RedirectAll(spare, target, split.id) + [split];
      var whole := Graft(pruned, target, split.id, Tip(pane), placeAfter);
      Grows(nodes, whole) && whole.id == RedirectId(pruned.id, target, split.id) && IsLeaf(nodes, pane)
  {
    hide UniqueNodeIds, RedirectAll, FindNode, Distinct, Elements;
    InTreeGrows(spare, pruned);
    var nodes := RedirectAll(spare, target, split.id) + [split];
    assert nodes == RedirectAll(spare, target, split.id) + [] + [split];
    PartsOf(spare, target, split.id, [], split);
    assert spare[FindNode(spare, pane)].id == pane;
    LeafGrows(nodes, pane);
    GraftGrows(spare, nodes, pruned, target, split, Tip(pane), placeAfter);
  }

  lemma {:induction false} RehungSplits(spare: seq<Node>, pruned: Tree, target: string, split: Node, whole: Tree)
    requires SplitsInTree(spare, pruned) && target != "" && split.kind.Split?
    requires var nodes := RedirectAll(spare, target, split.id) + [split];
      UniqueNodeIds(nodes) && Grows(nodes, whole) && Distinct(Ids(whole)) && NodeIds(nodes) == Elements(Ids(whole))
    ensures SplitsInTree(RedirectAll(spare, target, split.id) + [split], whole)
  {
    hide Distinct, Elements, UniqueNodeIds, Grows;
    var redirected := RedirectAll(spare, target, split.id);
    var nodes := redirected + [split];
    forall k | 0 <= k < |nodes|
      ensures nodes[k].id in Elements(Ids(whole))
      ensures nodes[k].kind.Leaf? ==> nodes[k].firstChildId == "" && nodes[k].secondChildId == ""
    {
      assert nodes[k].id in NodeIds(nodes);
      if k < |redirected| {
        assert nodes[k] == redirected[k] == Redirect(spare[k], target, split.id);
      }
    }
  }

  lemma {:induction false} RehungIsValid(layout: Layout, pane: string, target: string, split: Node, placeAfter: bool)
    requires MovePossible(layout, pane, target, split.id) && FindParent(layout.nodes, pane) < |layout.nodes|
    requires split == SplitNode(split.id, if placeAfter then target else pane, if placeAfter then pane else target, split.orientation)
    ensures ValidLayout(Rehung(layout, pane, target, split))
  {
    hide ValidLayout, RefsMatched, LeafRefs, IntentIds, UniqueIntentIds, NodeIds, BoundedText, RedirectAll, IsLeaf, ValidIntent, Rehanging, Elements, SplitsInTree, Spare, FindNode, FindParent, Graft, Prune;
    var parent := layout.nodes[FindParent(layout.nodes, pane)];
    var siblingId := if parent.firstChildId == pane then parent.secondChildId else parent.firstChildId;
    var spare := Spare(layout.nodes, parent.id, parent.id, siblingId);
    var pruned := Prune(TreeOf(layout), pane);
    var rehung := Rehung(layout, pane, target, split);
    var ids := IntentIds(layout.restoreIntents);
    Disassembled(layout);
    RehungNodes(layout, pane, target, split);
    RehangingHolds(layout, pane, target, split);
    RehungIsWhole(layout, spare, pruned, pane, target, parent.id, split, placeAfter);
    RehungFits(layout, spare, pruned, pane, target, parent.id, split);
    RehungFrame(layout, pane, target, split);
    assert FrameInOrder(rehung);
    Assembled(rehung, Graft(pruned, target, split.id, Tip(pane), placeAfter));
  }

  lemma {:induction false} RehungFrame(layout: Layout, pane: string, target: string, split: Node)
    requires FindParent(layout.nodes, pane) < |layout.nodes|
    ensures var rehung := Rehung(layout, pane, target, split);
      rehung == layout.(nodes := rehung.nodes, rootNodeId := rehung.rootNodeId, activePaneId := pane)
  {
    hide FindParent, EraseNodes;
  }

  lemma {:induction false} RehungFits(layout: Layout, spare: seq<Node>, pruned: Tree, pane: string, target: string, parentId: string, split: Node)
    requires Rehanging(layout, spare, pruned, pane, target, parentId) && BoundedText(split.id, 128, false)
    requires split.kind.Split? && split.restoreIntentId == "" && 0.2 <= split.ratio <= 0.8
    ensures AllFit(RedirectAll(spare, target, split.id) + [split], IntentIds(layout.restoreIntents))
    ensures |RedirectAll(spare, target, split.id) + [split]| == |layout.nodes|
  {
    hide BoundedText, IntentIds, SplitsInTree, IsLeaf, Elements, LeafRefs, NodeIds;
    var redirected := RedirectAll(spare, target, split.id);
    RedirectedParts(spare, target, split.id);
    hide RedirectAll;
    var nodes := redirected + [split];
    forall k | 0 <= k < |nodes|
      ensures NodeFits(nodes[k], IntentIds(layout.restoreIntents))
    {
      assert nodes[k] == if k < |redirected| then redirected[k] else split;
    }
  }

  /** A pane of a tab with another pane has a parent. */
  lemma {:induction false} MoveHasParent(layout: Layout, pane: string, target: string, splitId: string)
    requires MovePossible(layout, pane, target, splitId)
    ensures FindParent(layout.nodes, pane) < |layout.nodes|
  {
    hide ValidLayout, IsLeaf, FindParent;
    TwoPanesTwoIntents(layout, pane, target);
    PaneBelowRoot(layout, pane);
  }

  /** What the move does when it is possible. */
  lemma {:induction false} MoveIsRehung(layout: Layout, pane: string, target: string, splitId: string, orientation: Orientation, placeAfter: bool)
    requires MovePossible(layout, pane, target, splitId) && FindParent(layout.nodes, pane) < |layout.nodes|
    requires var parent := layout.nodes[FindParent(layout.nodes, pane)];
      var siblingId := if parent.firstChildId == pane then parent.secondChildId else parent.firstChildId;
      FindNode(Spare(layout.nodes, parent.id, parent.id, siblingId), target) < |Spare(layout.nodes, parent.id, parent.id, siblingId)|
      && Promote(layout, parent.id, siblingId).nodes == RedirectAll(layout.nodes, parent.id, siblingId)
    requires FindNode(layout.nodes, splitId) == |layout.nodes|
    ensures var split := SplitNode(splitId, if placeAfter then target else pane, if placeAfter then pane else target, orientation);
      var moved := MoveTerminalPane(layout, pane, target, splitId, orientation, placeAfter);
      ValidLayout(Rehung(layout, pane, target, split)) ==>
        moved == Some(layout) || moved == Some(Rehung(layout, pane, target, split))
  {
    hide ValidLayout, AttachSplit, Promote, EraseNodes, BoundedText, RedirectAll, FindParent;
  }

  /** Moving inside a tab succeeds exactly for two different panes of a valid tab and a new split id. */
  lemma {:induction false} MoveSucceedsExactly(layout: Layout, pane: string, target: string, splitId: string, orientation: Orientation, placeAfter: bool)
    ensures MoveTerminalPane(layout, pane, target, splitId, orientation, placeAfter).Some? <==> MovePossible(layout, pane, target, splitId)
  {
    hide ValidLayout, AttachSplit, Promote, EraseNodes, BoundedText, RedirectAll, FindParent, IsLeaf, Rehung, Spare, NodeIds, MoveTerminalPane;
    NotListed(layout.nodes, splitId);
    if MoveTerminalPane(layout, pane, target, splitId, orientation, placeAfter).Some? {
      MovedMeansPossible(layout, pane, target, splitId, orientation, placeAfter);
    }
    if MovePossible(layout, pane, target, splitId) {
      var split := SplitNode(splitId, if placeAfter then target else pane, if placeAfter then pane else target, orientation);
      MoveHasParent(layout, pane, target, splitId);
      ParentFound(layout, pane);
      RehungNodes(layout, pane, target, split);
      RehungIsValid(layout, pane, target, split, placeAfter);
      LeafFound(Spare(layout.nodes, layout.nodes[FindParent(layout.nodes, pane)].id, layout.nodes[FindParent(layout.nodes, pane)].id,
                      SiblingOf(layout, pane)), target);
      PromotedNodes(layout, pane);
      MoveIsRehung(layout, pane, target, splitId, orientation, placeAfter);
    }
  }

  function SiblingOf(layout: Layout, pane: string): string
    requires FindParent(layout.nodes, pane) < |layout.nodes|
  {
    var parent := layout.nodes[FindParent(layout.nodes, pane)];
    if parent.firstChildId == pane then parent.secondChildId else parent.firstChildId
  }

  lemma {:induction false} PromotedNodes(layout: Layout, pane: string)
    requires ValidLayout(layout) && IsLeaf(layout.nodes, pane) && FindParent(layout.nodes, pane) < |layout.nodes|
    ensures var parentId := layout.nodes[FindParent(layout.nodes, pane)].id;
      Promote(layout, parentId, SiblingOf(layout, pane)).nodes == RedirectAll(layout.nodes, parentId, SiblingOf(layout, pane))
  {
    hide ValidLayout, FindParent;
    ParentFound(layout, pane);
  }

  lemma {:induction false} LeafFound(nodes: seq<Node>, id: string)
    requires IsLeaf(nodes, id)
    ensures FindNode(nodes, id) < |nodes|
  {
  }

  lemma {:induction false} NotListed(nodes: seq<Node>, id: string)
    ensures id in NodeIds(nodes) <==> FindNode(nodes, id) < |nodes|
  {
    var k := FindNode(nodes, id);
    assert k < |nodes| ==> nodes[k].id == id;
  }

  lemma {:induction false} MovedMeansPossible(layout: Layout, pane: string, target: string, splitId: string, orientation: Orientation, placeAfter: bool)
    requires MoveTerminalPane(layout, pane, target, splitId, orientation, placeAfter).Some?
    ensures ValidLayout(layout) && IsLeaf(layout.nodes, pane) && IsLeaf(layout.nodes, target) && pane != target
    ensures BoundedText(splitId, 128, false) && FindNode(layout.nodes, splitId) == |layout.nodes|
  {
    hide ValidLayout, AttachSplit, Promote, EraseNodes, BoundedText, FindParent;
  }
}
