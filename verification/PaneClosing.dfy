/**
 Reading the panes of a tab off the node list, and closing one of them.  Closing checks its result
 like every other operation, but on a valid tab that check never fails.
 */
module PaneClosing {
  import opened WorkspaceState
  import opened PaneTree
  import opened WorkspaceTransfer
  import opened PaneOrder
  import opened LayoutParts

  // ----- the panes in order -----

  function ForestPanes(trees: seq<Tree>): seq<string> {
    if trees == [] then [] else Panes(trees[0]) + ForestPanes(trees[1..])
  }

  lemma {:induction false} ForestPanesCons(tree: Tree, rest: seq<Tree>)
    ensures ForestPanes([tree] + rest) == Panes(tree) + ForestPanes(rest)
  {
    assert ([tree] + rest)[1..] == rest;
  }

  lemma {:induction false} ForkPanes(fork: Tree, rest: seq<Tree>)
    requires fork.Fork?
    ensures ForestPanes([fork] + rest) == ForestPanes([fork.first, fork.second] + rest)
  {
    ForestPanesCons(fork, rest);
    ForestPanesCons(fork.second, rest);
    ForestPanesCons(fork.first, [fork.second] + rest);
    assert [fork.first, fork.second] + rest == [fork.first] + ([fork.second] + rest);
  }

  lemma {:induction false} TipPanes(tip: Tree, rest: seq<Tree>)
    requires tip.Tip?
    ensures ForestPanes([tip] + rest) == [tip.id] + ForestPanes(rest)
  {
    ForestPanesCons(tip, rest);
  }

  /** The traversal at work: the panes listed so far, then those of the trees on the stack, are all. */
  ghost predicate Traversing(layout: Layout, order: seq<string>, pending: seq<Node>, trees: seq<Tree>, visited: set<string>) {
    && OnStack(layout, pending) && Rooted(layout, trees, pending) && Covers(layout, trees, visited)
    && |trees| == |pending| <= MAXIMUM_NODES
    && ValidLayout(layout) && order + ForestPanes(trees) == Order(layout)
  }

  /** The traversal that lists the panes; its stack of nodes never outgrows the array it lives in. */
  method TerminalPaneOrder(layout: Layout) returns (order: seq<string>)
    ensures order == if ValidLayout(layout) then Order(layout) else []
  {
    hide ValidLayout, Traversing, Order, FindNode, ForestIds, ForestPanes;
    order := [];
    if !ValidLayout(layout) {
      return;
    }
    StartsTraversing(layout);
    var pending := [layout.nodes[FindNode(layout.nodes, layout.rootNodeId)]];
    ghost var trees: seq<Tree>, visited: set<string> := [TreeOf(layout)], {};
    while pending != []
      invariant Traversing(layout, order, pending, trees, visited)
      invariant |pending| <= MAXIMUM_NODES
      decreases |ForestIds(trees)|
    {
      var node, rest := pending[0], pending[1..];
      if node.kind.Leaf? {
        LeafStep(layout, order, pending, trees, visited);
        order := order + [node.id];
        pending, trees := rest, trees[1..];
      } else {
        SplitStep(layout, order, pending, trees, visited);
        var first, second := FindNode(layout.nodes, node.firstChildId), FindNode(layout.nodes, node.secondChildId);
        pending, trees := [layout.nodes[first], layout.nodes[second]] + rest, [trees[0].first, trees[0].second] + trees[1..];
      }
      visited := visited + {node.id};
      StackInBounds(layout, order, pending, trees, visited);
    }
    NothingLeft(layout, order, pending, trees, visited);
  }

  lemma {:induction false} StackInBounds(layout: Layout, order: seq<string>, pending: seq<Node>, trees: seq<Tree>, visited: set<string>)
    requires Traversing(layout, order, pending, trees, visited)
    ensures |pending| <= MAXIMUM_NODES
  {
  }

  lemma {:induction false} NothingLeft(layout: Layout, order: seq<string>, pending: seq<Node>, trees: seq<Tree>, visited: set<string>)
    requires Traversing(layout, order, pending, trees, visited) && pending == []
    ensures order == Order(layout)
  {
    hide ValidLayout, Order;
    assert order + [] == order;
  }

  lemma {:induction false} LeafStep(layout: Layout, order: seq<string>, pending: seq<Node>, trees: seq<Tree>, visited: set<string>)
    requires Traversing(layout, order, pending, trees, visited) && pending != [] && pending[0].kind.Leaf?
    ensures trees != []
    ensures Traversing(layout, order + [pending[0].id], pending[1..], trees[1..], visited + {pending[0].id})
    ensures |ForestIds(trees[1..])| < |ForestIds(trees)|
  {
    hide ValidLayout, Rooted, Covers, OnStack, ForestIds, ForestPanes, Order, IsNode;
    var node, rest := pending[0], pending[1..];
    assert pending == [node] + rest && trees == [trees[0]] + trees[1..];
    TopOfStack(layout, trees, pending);
    ForestIdsCons(trees[0], trees[1..]);
    TipPanes(trees[0], trees[1..]);
    LeafOffTop(layout, node, rest, trees, visited);
    assert order + ([node.id] + ForestPanes(trees[1..])) == (order + [node.id]) + ForestPanes(trees[1..]);
  }

  lemma {:induction false} SplitStep(layout: Layout, order: seq<string>, pending: seq<Node>, trees: seq<Tree>, visited: set<string>)
    requires Traversing(layout, order, pending, trees, visited) && pending != [] && pending[0].kind.Split?
    ensures trees != [] && trees[0].Fork?
    ensures var first, second := FindNode(layout.nodes, pending[0].firstChildId), FindNode(layout.nodes, pending[0].secondChildId);
      var trees' := [trees[0].first, trees[0].second] + trees[1..];
      && first < |layout.nodes| && second < |layout.nodes|
      && Traversing(layout, order, [layout.nodes[first], layout.nodes[second]] + pending[1..], trees', visited + {pending[0].id})
      && |ForestIds(trees')| < |ForestIds(trees)|
  {
    hide ValidLayout, Rooted, Covers, OnStack, ForestIds, ForestPanes, Order, IsNode, FindNode, NodeIds;
    var node, rest := pending[0], pending[1..];
    assert pending == [node] + rest && trees == [trees[0]] + trees[1..];
    TopOfStack(layout, trees, pending);
    SplitOffTop(layout, node, rest, trees, visited);
    ForkPanes(trees[0], trees[1..]);
    ForkIdsShrink(trees[0], trees[1..]);
    SizeFits(layout, [trees[0].first, trees[0].second] + trees[1..], visited + {node.id});
  }

  lemma {:induction false} StartsTraversing(layout: Layout)
    requires ValidLayout(layout)
    ensures FindNode(layout.nodes, layout.rootNodeId) < |layout.nodes|
    ensures Traversing(layout, [], [layout.nodes[FindNode(layout.nodes, layout.rootNodeId)]], [TreeOf(layout)], {})
  {
    StartsCovered(layout);
    WholeTree(TreeOf(layout));
    assert [] + Panes(TreeOf(layout)) == Panes(TreeOf(layout));
  }

  lemma {:induction false} WholeTree(tree: Tree)
    ensures ForestPanes([tree]) == Panes(tree) && ForestPanes([]) == []
  {
    ForestPanesCons(tree, []);
    assert [tree] + [] == [tree];
  }

  lemma {:induction false} StartsCovered(layout: Layout)
    requires ValidLayout(layout)
    ensures FindNode(layout.nodes, layout.rootNodeId) < |layout.nodes|
    ensures var pending := [layout.nodes[FindNode(layout.nodes, layout.rootNodeId)]];
      OnStack(layout, pending) && Rooted(layout, [TreeOf(layout)], pending) && Covers(layout, [TreeOf(layout)], {})
  {
    var tree := TreeOf(layout);
    assert Spans(layout, tree);
    FoundIsNode(layout, layout.rootNodeId);
    hide ValidLayout, Walk;
    ForestCons(tree, []);
    assert [tree] + [] == [tree] && ForestIds([tree]) == Ids(tree) + [] == Ids(tree);
  }

  lemma {:induction false} TopOfStack(layout: Layout, trees: seq<Tree>, pending: seq<Node>)
    requires OnStack(layout, pending) && Rooted(layout, trees, pending) && pending != []
    ensures IsNode(layout, pending[0]) && trees[0].id == pending[0].id && OnStack(layout, pending[1..])
    ensures pending[0].kind.Leaf? <==> trees[0].Tip?
  {
    assert Grows(layout.nodes, trees[0]) && IsNode(layout, pending[0]);
  }

  lemma {:induction false} ForestIdsCons(tree: Tree, rest: seq<Tree>)
    ensures |ForestIds([tree] + rest)| > |ForestIds(rest)|
  {
    ForestCons(tree, rest);
    RootAmongIds(tree);
  }

  lemma {:induction false} ForkIdsShrink(fork: Tree, rest: seq<Tree>)
    requires fork.Fork?
    ensures |ForestIds([fork] + rest)| > |ForestIds([fork.first, fork.second] + rest)|
  {
    var others := [fork.first, fork.second] + rest;
    assert others[2..] == rest;
    ForkIds(fork.id, others);
  }

  lemma {:induction false} SizeFits(layout: Layout, trees: seq<Tree>, visited: set<string>)
    requires ValidLayout(layout) && Covers(layout, trees, visited)
    ensures |trees| <= MAXIMUM_NODES
  {
    StackFits(layout, trees, visited);
  }

  // ----- closing never fails on a valid tab with several panes -----

  /** The first pane of a tree. */
  function Leftmost(tree: Tree): string {
    if tree.Tip? then tree.id else Leftmost(tree.first)
  }

  lemma {:induction false} FirstLeafIsLeftmost(nodes: seq<Node>, tree: Tree, left: set<string>)
    requires Grows(nodes, tree) && Distinct(Ids(tree)) && Elements(Ids(tree)) <= left
    ensures FirstLeaf(nodes, tree.id, left) == Some(Leftmost(tree)) && IsLeaf(nodes, Leftmost(tree))
  {
    RootAmongIds(tree);
    if tree.Fork? {
      DistinctFork(tree.id, tree.first, tree.second);
      ElementsOfFork(tree.id, tree.first, tree.second);
      hide Distinct, Elements;
      FirstLeafIsLeftmost(nodes, tree.first, left - {tree.id});
    }
  }

  lemma {:induction false} Subtree(nodes: seq<Node>, tree: Tree, id: string) returns (part: Tree)
    requires Grows(nodes, tree) && Distinct(Ids(tree)) && id in Elements(Ids(tree))
    ensures part.id == id && Grows(nodes, part) && Distinct(Ids(part)) && Elements(Ids(part)) <= Elements(Ids(tree))
  {
    part := tree;
    if tree.id != id {
      if tree.Tip? {
        TipIds(tree.id);
      } else {
        DistinctFork(tree.id, tree.first, tree.second);
        ElementsOfFork(tree.id, tree.first, tree.second);
        hide Distinct, Elements, FindNode;
        if id in Elements(Ids(tree.first)) {
          part := Subtree(nodes, tree.first, id);
        } else {
          part := Subtree(nodes, tree.second, id);
        }
      }
    }
  }

  lemma {:induction false} ErasedIntents(intents: seq<Intent>, id: string)
    ensures var erased := EraseIntents(intents, id);
      && (forall intent :: intent in erased <==> intent in intents && intent.id != id)
      && |erased| <= |intents| && (UniqueIntentIds(intents) ==> UniqueIntentIds(erased) && |intents| <= |erased| + 1)
  {
    if intents == [] {
      return;
    }
    ErasedIntents(intents[1..], id);
    var rest := EraseIntents(intents[1..], id);
    assert EraseIntents(intents, id) == if intents[0].id == id then rest else [intents[0]] + rest;
    hide EraseIntents;
    if UniqueIntentIds(intents) {
      assert forall k :: 0 <= k < |intents[1..]| ==> intents[1..][k] == intents[k + 1];
      forall intent | intent in intents[1..]
        ensures intent.id != intents[0].id
      {
      }
      if intents[0].id == id {
        NothingErased(intents[1..], id);
      }
    }
  }

  lemma {:induction false} NothingErased(intents: seq<Intent>, id: string)
    requires forall intent :: intent in intents ==> intent.id != id
    ensures EraseIntents(intents, id) == intents
  {
    if intents != [] {
      NothingErased(intents[1..], id);
    }
  }

  lemma {:induction false} ErasedIntentIds(intents: seq<Intent>, id: string)
    ensures IntentIds(EraseIntents(intents, id)) == IntentIds(intents) - {id}
  {
    ErasedIntents(intents, id);
    var erased := EraseIntents(intents, id);
    hide EraseIntents;
    forall k | 0 <= k < |erased|
      ensures erased[k].id in IntentIds(intents) - {id}
    {
      assert erased[k] in intents;
    }
    forall k | 0 <= k < |intents| && intents[k].id != id
      ensures intents[k].id in IntentIds(erased)
    {
      assert intents[k] in erased;
    }
  }

  /** The tab after closing, up to its active pane. */
  function Remaining(layout: Layout, pane: string, parent: Node, siblingId: string, intentId: string, active: string): Layout {
    layout.(rootNodeId := RedirectId(layout.rootNodeId, parent.id, siblingId), nodes := Spare(layout.nodes, pane, parent.id, siblingId),
            restoreIntents := EraseIntents(layout.restoreIntents, intentId), activePaneId := active)
  }

  /** What closing finds: the pane, its parent and sibling, and the pane's intent. */
  ghost predicate Closing(layout: Layout, pane: string, parent: Node, siblingId: string, intentId: string) {
    && ValidLayout(layout) && |layout.restoreIntents| > 1
    && IsLeaf(layout.nodes, pane) && layout.nodes[FindNode(layout.nodes, pane)].restoreIntentId == intentId
    && SplitsInTree(layout.nodes, TreeOf(layout)) && pane != TreeOf(layout).id && parent.id != ""
    && IsParent(layout.nodes, parent, pane, siblingId)
    && OnlyBelow(TreeOf(layout), pane, parent.id) && Forks(TreeOf(layout), parent.id, pane)
    && siblingId in Elements(Ids(TreeOf(layout)))
  }

  lemma {:induction false} RemainingIsWhole(layout: Layout, pane: string, parent: Node, siblingId: string, intentId: string, active: string)
    requires Closing(layout, pane, parent, siblingId, intentId)
    ensures IsWhole(Remaining(layout, pane, parent, siblingId, intentId, active), Prune(TreeOf(layout), pane))
    ensures forall id :: id != pane && IsLeaf(layout.nodes, id) ==> IsLeaf(Spare(layout.nodes, pane, parent.id, siblingId), id)
  {
    hide ValidLayout, Elements, OnlyBelow, Forks, Spare, NodeIds, FindNode;
    Disassembled(layout);
    SpareGrows(layout.nodes, TreeOf(layout), pane, pane, parent, siblingId);
    UniqueOfValid(layout);
    SpareIds(layout.nodes, pane, parent.id, siblingId);
  }

  /** Without a pane the others still match their intents, and refer to no other. */
  lemma {:induction false} MatchedWithout(nodes: seq<Node>, ids: set<string>, pane: string, intentId: string)
    requires RefsMatched(LeafRefs(nodes), ids) && (pane, intentId) in LeafRefs(nodes)
    ensures var refs := set p | p in LeafRefs(nodes) && p.0 != pane;
      (UniqueNodeIds(nodes) ==> RefsMatched(refs, ids - {intentId})) && forall p :: p in refs ==> p.1 != intentId
  {
    hide LeafRefs;
    var refs := set p | p in LeafRefs(nodes) && p.0 != pane;
    if UniqueNodeIds(nodes) {
      forall id | id in ids - {intentId}
        ensures exists p :: p in refs && p.1 == id
      {
        var p :| p in LeafRefs(nodes) && p.1 == id;
        if p.0 == pane {
          OneRefPerPane(nodes, p, (pane, intentId));
        }
        assert p in refs;
      }
    }
  }

  lemma {:induction false} OneRefPerPane(nodes: seq<Node>, p: (string, string), q: (string, string))
    requires UniqueNodeIds(nodes) && p in LeafRefs(nodes) && q in LeafRefs(nodes) && p.0 == q.0
    ensures p == q
  {
  }

  lemma {:induction false} FitsWithout(nodes: seq<Node>, ids: set<string>, intentId: string)
    requires AllFit(nodes, ids) && forall p :: p in LeafRefs(nodes) ==> p.1 != intentId
    ensures AllFit(nodes, ids - {intentId})
  {
    hide BoundedText;
    forall k | 0 <= k < |nodes|
      ensures NodeFits(nodes[k], ids - {intentId})
    {
      if nodes[k].kind.Leaf? {
        assert (nodes[k].id, nodes[k].restoreIntentId) in LeafRefs(nodes);
      }
    }
  }

  lemma {:induction false} PaneRef(nodes: seq<Node>, pane: string)
    requires IsLeaf(nodes, pane)
    ensures (pane, nodes[FindNode(nodes, pane)].restoreIntentId) in LeafRefs(nodes)
  {
    assert nodes[FindNode(nodes, pane)].id == pane;
  }

  lemma {:induction false} RemainingIsValid(layout: Layout, pane: string, parent: Node, siblingId: string, intentId: string, active: string)
    requires Closing(layout, pane, parent, siblingId, intentId) && IsLeaf(Spare(layout.nodes, pane, parent.id, siblingId), active)
    ensures ValidLayout(Remaining(layout, pane, parent, siblingId, intentId, active))
  {
    hide ValidLayout, BoundedText, ValidIntent, Spare, SplitsInTree, Elements, OnlyBelow, Forks, EraseIntents, LeafRefs, RefsMatched, AllFit, NodeIds, IntentIds, IsWhole, IsLeaf, FindNode, UniqueIntentIds;
    var remaining := Remaining(layout, pane, parent, siblingId, intentId, active);
    var ids := IntentIds(layout.restoreIntents);
    Disassembled(layout);
    UniqueOfValid(layout);
    RemainingIsWhole(layout, pane, parent, siblingId, intentId, active);
    SpareParts(layout.nodes, pane, parent, siblingId, ids);
    PaneRef(layout.nodes, pane);
    MatchedWithout(layout.nodes, ids, pane, intentId);
    FitsWithout(remaining.nodes, ids, intentId);
    ErasedIntents(layout.restoreIntents, intentId);
    ErasedIntentIds(layout.restoreIntents, intentId);
    SpareIds(layout.nodes, pane, parent.id, siblingId);
    LeafListed(remaining.nodes, active);
    SomeNode(remaining.nodes, active);
    forall k | 0 <= k < |remaining.restoreIntents|
      ensures ValidIntent(remaining.restoreIntents[k])
    {
      assert remaining.restoreIntents[k] in layout.restoreIntents;
    }
    assert FrameInOrder(remaining);
    Assembled(remaining, Prune(TreeOf(layout), pane));
  }

  lemma {:induction false} SomeNode(nodes: seq<Node>, id: string)
    requires id in NodeIds(nodes)
    ensures |nodes| > 0
  {
  }

  lemma {:induction false} OneNodeOneIntent(layout: Layout)
    requires |layout.nodes| == 1 && IntentsMatched(layout) && UniqueIntentIds(layout.restoreIntents)
    ensures |layout.restoreIntents| <= 1
  {
    IntentIdsBound(layout.restoreIntents);
    var ids, only := IntentIds(layout.restoreIntents), {layout.nodes[0].restoreIntentId};
    assert ids <= only;
    assert |only - ids| + |ids| == |only| == 1 by {
      assert (only - ids) + ids == only;
    }
  }

  /** With several intents the tree is more than one leaf. */
  lemma {:induction false} PaneBelowRoot(layout: Layout, pane: string)
    requires ValidLayout(layout) && IsLeaf(layout.nodes, pane) && |layout.restoreIntents| > 1
    ensures pane != TreeOf(layout).id && FindParent(layout.nodes, pane) < |layout.nodes|
  {
    var tree := TreeOf(layout);
    ValidIsWellFormed(layout);
    ValidSplitsInTree(layout);
    LeafInTree(layout, pane);
    hide ValidLayout, Elements, Distinct;
    if tree.id == pane {
      TipIds(pane);
      NodeIdsBound(layout.nodes);
      OneNodeOneIntent(layout);
    } else {
      ParentExists(layout.nodes, tree, pane);
    }
  }

  lemma {:induction false} ClosingHolds(layout: Layout, pane: string)
    requires ValidLayout(layout) && IsLeaf(layout.nodes, pane) && |layout.restoreIntents| > 1
    ensures FindParent(layout.nodes, pane) < |layout.nodes|
    ensures var parent := layout.nodes[FindParent(layout.nodes, pane)];
      var siblingId := if parent.firstChildId == pane then parent.secondChildId else parent.firstChildId;
      Closing(layout, pane, parent, siblingId, layout.nodes[FindNode(layout.nodes, pane)].restoreIntentId)
  {
    hide ValidLayout, Grows, Distinct, Elements, OnlyBelow, WellFormed, SplitsInTree;
    PaneBelowRoot(layout, pane);
    ParentFound(layout, pane);
    ValidIsWellFormed(layout);
    ValidSplitsInTree(layout);
    var parent := layout.nodes[FindParent(layout.nodes, pane)];
    var siblingId := if parent.firstChildId == pane then parent.secondChildId else parent.firstChildId;
    var k := FindNode(layout.nodes, parent.id);
    assert layout.nodes[k] == parent;
    assert SplitsInTree(layout.nodes, TreeOf(layout)) && parent.id in Elements(Ids(TreeOf(layout)));
    SiblingInTree(layout.nodes, TreeOf(layout), k, siblingId);
  }

  lemma {:induction false} SiblingInTree(nodes: seq<Node>, tree: Tree, k: nat, siblingId: string)
    requires SplitsInTree(nodes, tree) && k < |nodes| && nodes[k].kind.Split? && HasChild(nodes[k], siblingId)
    ensures siblingId in Elements(Ids(tree))
  {
    hide Distinct, Elements;
    NodeForks(nodes, tree, k, siblingId);
    ForksAmongIds(tree, nodes[k].id, siblingId);
  }

  /** The new active pane: the first of the sibling's panes, if the pane closed was the active one. */
  lemma {:induction false} NextActiveIsLeaf(layout: Layout, pane: string, parent: Node, siblingId: string, intentId: string)
    requires Closing(layout, pane, parent, siblingId, intentId)
    ensures var spare := Spare(layout.nodes, pane, parent.id, siblingId);
      var next := if layout.activePaneId == pane then FirstLeaf(spare, siblingId, NodeIds(spare)) else Some(layout.activePaneId);
      next.Some? && IsLeaf(spare, next.value)
  {
    hide ValidLayout, FrameInOrder, AllFit, RefsMatched, LeafRefs, Distinct, Elements, OnlyBelow, Forks, Grows, FirstLeaf, NodeIds, Spare;
    Disassembled(layout);
    RemainingIsWhole(layout, pane, parent, siblingId, intentId, "");
    if layout.activePaneId == pane {
      var spare, pruned := Spare(layout.nodes, pane, parent.id, siblingId), Prune(TreeOf(layout), pane);
      SpareGrows(layout.nodes, TreeOf(layout), pane, pane, parent, siblingId);
      OneFork(TreeOf(layout), parent.id, parent.id, pane);
      assert siblingId != parent.id by {
        SiblingIsNotParent(layout, pane, parent, siblingId, intentId);
      }
      var part := Subtree(spare, pruned, siblingId);
      FirstLeafIsLeftmost(spare, part, NodeIds(spare));
    }
  }

  lemma {:induction false} SiblingIsNotParent(layout: Layout, pane: string, parent: Node, siblingId: string, intentId: string)
    requires Closing(layout, pane, parent, siblingId, intentId)
    ensures siblingId != parent.id
  {
    hide ValidLayout, WellFormed, Distinct, Elements, OnlyBelow;
    var k := FindNode(layout.nodes, parent.id);
    assert layout.nodes[k] == parent;
    assert Grows(layout.nodes, TreeOf(layout)) && Distinct(Ids(TreeOf(layout)));
    NodeForks(layout.nodes, TreeOf(layout), k, siblingId);
    NotItsOwnChild(TreeOf(layout), parent.id, siblingId);
  }

  lemma {:induction false} NotItsOwnChild(tree: Tree, id: string, child: string)
    requires Distinct(Ids(tree)) && Forks(tree, id, child)
    ensures id != child
  {
    DistinctFork(tree.id, tree.first, tree.second);
    RootAmongIds(tree.first);
    RootAmongIds(tree.second);
    hide Distinct, Elements;
    if Forks(tree.first, id, child) {
      NotItsOwnChild(tree.first, id, child);
    } else if Forks(tree.second, id, child) {
      NotItsOwnChild(tree.second, id, child);
    }
  }

  /** Closing succeeds exactly on panes of valid tabs that have another pane. */
  lemma {:induction false} CloseSucceedsExactly(layout: Layout, pane: string)
    ensures CloseTerminalPane(layout, pane).Some? <==> ValidLayout(layout) && |layout.restoreIntents| > 1 && IsLeaf(layout.nodes, pane)
  {
    hide ValidLayout, FirstLeaf, EraseNodes, EraseIntents, Closing, FindNode, FindParent;
    if ValidLayout(layout) && |layout.restoreIntents| > 1 && IsLeaf(layout.nodes, pane) {
      ClosingHolds(layout, pane);
      ParentFound(layout, pane);
      var parent := layout.nodes[FindParent(layout.nodes, pane)];
      var siblingId := if parent.firstChildId == pane then parent.secondChildId else parent.firstChildId;
      var intentId := layout.nodes[FindNode(layout.nodes, pane)].restoreIntentId;
      NextActiveIsLeaf(layout, pane, parent, siblingId, intentId);
      var spare := Spare(layout.nodes, pane, parent.id, siblingId);
      var next := if layout.activePaneId == pane then FirstLeaf(spare, siblingId, NodeIds(spare)) else Some(layout.activePaneId);
      RemainingIsValid(layout, pane, parent, siblingId, intentId, next.value);
    }
  }
}
