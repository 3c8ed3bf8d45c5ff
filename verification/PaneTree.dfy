/**
 The tree that a flat node list stands for.  The validator's walk accepts a layout exactly if the
 list is one binary tree without sharing, whose leaves and restore intents correspond one to one.
 */
module PaneTree {
  import opened Lists
  import opened WorkspaceState

  datatype Tree = Tip(id: string) | Fork(id: string, first: Tree, second: Tree)

  /** `tree` hangs off its root id in the node list. */
  predicate Grows(nodes: seq<Node>, tree: Tree) {
    var k := FindNode(nodes, tree.id);
    && k < |nodes|
    && match tree
       case Tip(_) => nodes[k].kind.Leaf?
       case Fork(_, first, second) =>
         && nodes[k].kind.Split?
         && nodes[k].firstChildId == first.id && nodes[k].secondChildId == second.id
         && Grows(nodes, first) && Grows(nodes, second)
  }

  /** All node ids, parents before children. */
  function Ids(tree: Tree): seq<string> {
    match tree
    case Tip(id) => [id]
    case Fork(id, first, second) => [id] + Ids(first) + Ids(second)
  }

  /** The pane ids from left to right. */
  function Panes(tree: Tree): seq<string> {
    match tree
    case Tip(id) => [id]
    case Fork(_, first, second) => Panes(first) + Panes(second)
  }

  function ForestIds(trees: seq<Tree>): seq<string> {
    if trees == [] then [] else Ids(trees[0]) + ForestIds(trees[1..])
  }

  function Elements(s: seq<string>): set<string> {
    set x | x in s
  }

  predicate Distinct(s: seq<string>) {
    forall i, j :: 0 <= i < j < |s| ==> s[i] != s[j]
  }

  /** Leaves refer to intents one to one. */
  predicate IntentsMatched(layout: Layout) {
    && (forall i, j :: 0 <= i < j < |layout.nodes| && layout.nodes[i].kind.Leaf? && layout.nodes[j].kind.Leaf? ==>
         layout.nodes[i].restoreIntentId != layout.nodes[j].restoreIntentId)
    && (forall id :: id in IntentIds(layout.restoreIntents) ==>
         exists k :: 0 <= k < |layout.nodes| && layout.nodes[k].kind.Leaf? && layout.nodes[k].restoreIntentId == id)
  }

  /** `tree` is the whole node list. */
  predicate Spans(layout: Layout, tree: Tree) {
    && tree.id == layout.rootNodeId
    && Grows(layout.nodes, tree)
    && Distinct(Ids(tree))
    && Elements(Ids(tree)) == NodeIds(layout.nodes)
  }

  ghost predicate WellFormed(layout: Layout) {
    && HeaderInOrder(layout)
    && (forall k :: 0 <= k < |layout.nodes| ==> NodeInOrder(layout, layout.nodes[k]))
    && IntentsMatched(layout)
    && IsLeaf(layout.nodes, layout.activePaneId)
    && exists tree :: Spans(layout, tree)
  }

  // ----- the walk accepts only trees -----

  /** The stack holds nodes of the layout. */
  predicate OnStack(layout: Layout, pending: seq<Node>) {
    forall k :: 0 <= k < |pending| ==> IsNode(layout, pending[k])
  }

  predicate IsNode(layout: Layout, node: Node) {
    var k := FindNode(layout.nodes, node.id);
    k < |layout.nodes| && layout.nodes[k] == node
  }

  ghost predicate Rooted(layout: Layout, trees: seq<Tree>, pending: seq<Node>) {
    && |trees| == |pending|
    && forall k :: 0 <= k < |trees| ==> trees[k].id == pending[k].id && Grows(layout.nodes, trees[k])
  }

  /** The trees cover exactly the nodes not visited yet, each once. */
  ghost predicate Covers(layout: Layout, trees: seq<Tree>, visited: set<string>) {
    && Distinct(ForestIds(trees))
    && Elements(ForestIds(trees)) !! visited
    && Elements(ForestIds(trees)) + visited == NodeIds(layout.nodes)
  }

  lemma {:induction false} NodeIdsBound(nodes: seq<Node>)
    ensures |NodeIds(nodes)| <= |nodes|
    ensures UniqueNodeIds(nodes) ==> |NodeIds(nodes)| == |nodes|
  {
    if nodes != [] {
      var rest := nodes[..|nodes| - 1];
      var last := nodes[|nodes| - 1];
      NodeIdsBound(rest);
      assert forall k :: 0 <= k < |rest| ==> rest[k] == nodes[k];
      assert NodeIds(nodes) == NodeIds(rest) + {last.id};
    }
  }

  lemma {:induction false} IntentIdsBound(intents: seq<Intent>)
    ensures |IntentIds(intents)| <= |intents|
    ensures UniqueIntentIds(intents) ==> |IntentIds(intents)| == |intents|
  {
    if intents != [] {
      var rest := intents[..|intents| - 1];
      var last := intents[|intents| - 1];
      IntentIdsBound(rest);
      assert forall k :: 0 <= k < |rest| ==> rest[k] == intents[k];
      assert IntentIds(intents) == IntentIds(rest) + {last.id};
    }
  }

  lemma {:induction false} FullSubset<T>(a: set<T>, b: set<T>)
    requires a <= b && |b| <= |a|
    ensures a == b
  {
    assert b == a + (b - a);
    assert |b| == |a| + |b - a|;
  }

  lemma {:induction false} FoundIsNode(layout: Layout, id: string)
    requires FindNode(layout.nodes, id) < |layout.nodes|
    ensures IsNode(layout, layout.nodes[FindNode(layout.nodes, id)])
    ensures id in NodeIds(layout.nodes)
  {
  }

  lemma {:induction false} OnStackMembers(layout: Layout, pending: seq<Node>)
    requires OnStack(layout, pending)
    ensures forall k :: 0 <= k < |pending| ==> pending[k].id in NodeIds(layout.nodes)
  {
    assert forall k :: 0 <= k < |pending| ==> IsNode(layout, pending[k]);
  }

  lemma {:induction false} WalkGrowsForest(layout: Layout, pending: seq<Node>, visited: set<string>, referenced: set<string>)
    returns (trees: seq<Tree>)
    requires OnStack(layout, pending) && visited <= NodeIds(layout.nodes)
    requires forall k :: 0 <= k < |pending| ==> pending[k].id in NodeIds(layout.nodes)
    requires Walk(layout, pending, visited, referenced)
    ensures Rooted(layout, trees, pending)
    ensures Covers(layout, trees, visited)
    decreases NodeIds(layout.nodes) - visited
  {
    if pending == [] {
      trees := [];
      EmptyForestCovers(layout, visited);
      return;
    }
    hide Covers, Grows, NodeIds, NodeInOrder;
    var node, rest := pending[0], pending[1..];
    assert IsNode(layout, node);
    assert [node] + rest == pending;
    match node.kind {
      case Leaf =>
        var others := WalkGrowsForest(layout, rest, visited + {node.id}, referenced + {node.restoreIntentId});
        trees := [Tip(node.id)] + others;
        LeafOnTop(layout, node, rest, others, visited);
      case Split =>
        var first := layout.nodes[FindNode(layout.nodes, node.firstChildId)];
        var second := layout.nodes[FindNode(layout.nodes, node.secondChildId)];
        var others := WalkGrowsForest(layout, [first, second] + rest, visited + {node.id}, referenced);
        trees := [Fork(node.id, others[0], others[1])] + others[2..];
        SplitOnTop(layout, node, rest, others, visited);
    }
  }

  lemma {:induction false} EmptyForestCovers(layout: Layout, visited: set<string>)
    requires visited <= NodeIds(layout.nodes) && |visited| == |layout.nodes|
    ensures Covers(layout, [], visited)
  {
    NodeIdsBound(layout.nodes);
    FullSubset(visited, NodeIds(layout.nodes));
  }

  lemma {:induction false} EverythingIsChecked(layout: Layout, visited: set<string>, referenced: set<string>)
    requires visited <= NodeIds(layout.nodes) && |visited| == |layout.nodes|
    requires referenced <= IntentIds(layout.restoreIntents) && |referenced| == |layout.restoreIntents|
    ensures Checked(layout, visited, referenced)
  {
    NodeIdsBound(layout.nodes);
    FullSubset(visited, NodeIds(layout.nodes));
    IntentIdsBound(layout.restoreIntents);
    FullSubset(referenced, IntentIds(layout.restoreIntents));
  }

  lemma {:induction false} LeafOnTop(layout: Layout, node: Node, rest: seq<Node>, others: seq<Tree>, visited: set<string>)
    requires IsNode(layout, node) && node.kind.Leaf? && node.id !in visited
    requires Rooted(layout, others, rest) && Covers(layout, others, visited + {node.id})
    ensures Rooted(layout, [Tip(node.id)] + others, [node] + rest)
    ensures Covers(layout, [Tip(node.id)] + others, visited)
  {
    var trees := [Tip(node.id)] + others;
    assert trees[1..] == others;
    assert ForestIds(trees) == [node.id] + ForestIds(others);
    DistinctCons(node.id, ForestIds(others));
  }

  lemma {:induction false} DistinctCons(x: string, s: seq<string>)
    ensures Elements([x] + s) == Elements(s) + {x}
    ensures Distinct([x] + s) <==> Distinct(s) && x !in Elements(s)
  {
    var all := [x] + s;
    assert forall k :: 0 <= k < |s| ==> all[k + 1] == s[k];
    assert all[0] == x;
  }

  lemma {:induction false} SplitOnTop(layout: Layout, node: Node, rest: seq<Node>, others: seq<Tree>, visited: set<string>)
    requires IsNode(layout, node) && node.kind.Split? && node.id !in visited
    requires FindNode(layout.nodes, node.firstChildId) < |layout.nodes| && FindNode(layout.nodes, node.secondChildId) < |layout.nodes|
    requires var first, second := FindNode(layout.nodes, node.firstChildId), FindNode(layout.nodes, node.secondChildId);
      Rooted(layout, others, [layout.nodes[first], layout.nodes[second]] + rest)
    requires Covers(layout, others, visited + {node.id})
    ensures Rooted(layout, [Fork(node.id, others[0], others[1])] + others[2..], [node] + rest)
    ensures Covers(layout, [Fork(node.id, others[0], others[1])] + others[2..], visited)
  {
    var trees := [Fork(node.id, others[0], others[1])] + others[2..];
    ForkIds(node.id, others);
    DistinctCons(node.id, ForestIds(others));
  }

  lemma {:induction false} ForkIds(id: string, others: seq<Tree>)
    requires |others| >= 2
    ensures ForestIds([Fork(id, others[0], others[1])] + others[2..]) == [id] + ForestIds(others)
  {
    var a, b, rest := others[0], others[1], others[2..];
    FirstTwo(others);
    ForestCons(a, [b] + rest);
    ForestCons(b, rest);
    ForestCons(Fork(id, a, b), rest);
    Regroup([id], Ids(a), Ids(b), ForestIds(rest));
  }

  lemma {:induction false} ForestCons(tree: Tree, rest: seq<Tree>)
    ensures ForestIds([tree] + rest) == Ids(tree) + ForestIds(rest)
  {
    assert ([tree] + rest)[1..] == rest;
  }

  /** Every node not visited yet is in order, and the intents of the leaves among them are all different and new. */
  lemma {:induction false} WalkChecks(layout: Layout, pending: seq<Node>, visited: set<string>, referenced: set<string>)
    requires UniqueNodeIds(layout.nodes)
    requires OnStack(layout, pending) && visited <= NodeIds(layout.nodes) && referenced <= IntentIds(layout.restoreIntents)
    requires forall k :: 0 <= k < |pending| ==> pending[k].id in NodeIds(layout.nodes)
    requires Walk(layout, pending, visited, referenced)
    ensures Checked(layout, visited, referenced)
    decreases NodeIds(layout.nodes) - visited
  {
    if pending == [] {
      EverythingIsChecked(layout, visited, referenced);
    } else {
      hide Checked, UniqueNodeIds, NodeIds;
      var node, rest := pending[0], pending[1..];
      assert IsNode(layout, node);
      match node.kind {
        case Leaf =>
          IntentFound(layout, node.restoreIntentId);
          hide NodeInOrder;
          WalkChecks(layout, rest, visited + {node.id}, referenced + {node.restoreIntentId});
          CheckedStep(layout, node, visited, referenced);
        case Split =>
          hide NodeInOrder;
          var first := layout.nodes[FindNode(layout.nodes, node.firstChildId)];
          var second := layout.nodes[FindNode(layout.nodes, node.secondChildId)];
          WalkChecks(layout, [first, second] + rest, visited + {node.id}, referenced);
          CheckedStep(layout, node, visited, referenced);
      }
    }
  }

  lemma {:induction false} IntentFound(layout: Layout, id: string)
    requires FindIntent(layout.restoreIntents, id) < |layout.restoreIntents|
    ensures id in IntentIds(layout.restoreIntents)
  {
  }

  predicate FreshLeaf(layout: Layout, visited: set<string>, k: nat)
    requires k < |layout.nodes|
  {
    layout.nodes[k].kind.Leaf? && layout.nodes[k].id !in visited
  }

  ghost predicate Checked(layout: Layout, visited: set<string>, referenced: set<string>) {
    && (forall k :: 0 <= k < |layout.nodes| && layout.nodes[k].id !in visited ==> NodeInOrder(layout, layout.nodes[k]))
    && (forall k :: 0 <= k < |layout.nodes| && FreshLeaf(layout, visited, k) ==> layout.nodes[k].restoreIntentId !in referenced)
    && (forall i, j :: 0 <= i < j < |layout.nodes| && FreshLeaf(layout, visited, i) && FreshLeaf(layout, visited, j) ==>
         layout.nodes[i].restoreIntentId != layout.nodes[j].restoreIntentId)
    && (forall id :: id in IntentIds(layout.restoreIntents) && id !in referenced ==>
         exists k :: 0 <= k < |layout.nodes| && FreshLeaf(layout, visited, k) && layout.nodes[k].restoreIntentId == id)
  }

  lemma {:induction false} CheckedStep(layout: Layout, node: Node, visited: set<string>, referenced: set<string>)
    requires UniqueNodeIds(layout.nodes)
    requires IsNode(layout, node) && node.id !in visited && NodeInOrder(layout, node)
    requires node.kind.Leaf? ==> node.restoreIntentId !in referenced
    requires Checked(layout, visited + {node.id}, if node.kind.Leaf? then referenced + {node.restoreIntentId} else referenced)
    ensures Checked(layout, visited, referenced)
  {
    hide NodeInOrder;
    var at := FindNode(layout.nodes, node.id);
    assert forall k :: 0 <= k < |layout.nodes| && layout.nodes[k].id == node.id ==> k == at;
    forall id | id in IntentIds(layout.restoreIntents) && id !in referenced
      ensures exists k :: 0 <= k < |layout.nodes| && FreshLeaf(layout, visited, k) && layout.nodes[k].restoreIntentId == id
    {
      if node.kind.Leaf? && id == node.restoreIntentId {
        assert FreshLeaf(layout, visited, at);
      } else {
        var k :| 0 <= k < |layout.nodes| && FreshLeaf(layout, visited + {node.id}, k) && layout.nodes[k].restoreIntentId == id;
        assert FreshLeaf(layout, visited, k);
      }
    }
    forall k | 0 <= k < |layout.nodes| && FreshLeaf(layout, visited, k) && k != at
      ensures FreshLeaf(layout, visited + {node.id}, k)
    {
    }
  }

  lemma {:induction false} ValidIsWellFormed(layout: Layout)
    requires ValidLayout(layout)
    ensures WellFormed(layout)
  {
    var root := layout.nodes[FindNode(layout.nodes, layout.rootNodeId)];
    FoundIsNode(layout, layout.rootNodeId);
    var trees := WalkGrowsForest(layout, [root], {}, {});
    WalkChecks(layout, [root], {}, {});
    hide NodeInOrder, HeaderInOrder, Walk, Grows;
    ForestCons(trees[0], []);
    assert [trees[0]] + [] == trees;
    assert ForestIds(trees) == Ids(trees[0]) + [] == Ids(trees[0]);
    assert Spans(layout, trees[0]);
    CheckedMeansMatched(layout);
  }

  lemma {:induction false} CheckedMeansMatched(layout: Layout)
    requires Checked(layout, {}, {})
    ensures IntentsMatched(layout)
  {
    hide NodeInOrder;
    forall i, j | 0 <= i < j < |layout.nodes| && layout.nodes[i].kind.Leaf? && layout.nodes[j].kind.Leaf?
      ensures layout.nodes[i].restoreIntentId != layout.nodes[j].restoreIntentId
    {
      assert FreshLeaf(layout, {}, i) && FreshLeaf(layout, {}, j);
    }
  }

  // ----- and it accepts all of them -----

  /** The intents of the visited leaves. */
  function IntentsOf(layout: Layout, visited: set<string>): set<string> {
    set k | 0 <= k < |layout.nodes| && layout.nodes[k].kind.Leaf? && layout.nodes[k].id in visited :: layout.nodes[k].restoreIntentId
  }

  lemma {:induction false} ForestIsWalked(layout: Layout, trees: seq<Tree>, pending: seq<Node>, visited: set<string>)
    requires UniqueNodeIds(layout.nodes) && UniqueIntentIds(layout.restoreIntents) && |layout.nodes| <= MAXIMUM_NODES
    requires forall k :: 0 <= k < |layout.nodes| ==> NodeInOrder(layout, layout.nodes[k])
    requires IntentsMatched(layout)
    requires OnStack(layout, pending)
    requires forall k :: 0 <= k < |pending| ==> pending[k].id in NodeIds(layout.nodes)
    requires Rooted(layout, trees, pending) && Covers(layout, trees, visited)
    ensures Walk(layout, pending, visited, IntentsOf(layout, visited))
    decreases NodeIds(layout.nodes) - visited
  {
    hide Covers, IntentsOf, Grows, IntentsMatched, UniqueNodeIds, UniqueIntentIds, NodeIds, Walk, FindNode;
    if pending == [] {
      WalkIsDone(layout, trees, visited);
      return;
    }
    var node, rest := pending[0], pending[1..];
    assert IsNode(layout, node) && NodeInOrder(layout, node) && trees[0].id == node.id;
    assert pending == [node] + rest && OnStack(layout, rest) && |trees| == |pending|;
    hide NodeInOrder, Rooted, OnStack, IsNode;
    TopIsUnvisited(layout, trees, visited);
    IntentsStep(layout, node, visited);
    match trees[0] {
      case Tip(id) =>
        LeafOffTop(layout, node, rest, trees, visited);
        ForestIsWalked(layout, trees[1..], rest, visited + {node.id});
        WalkFromLeaf(layout, node, rest, visited, IntentsOf(layout, visited));
      case Fork(id, first, second) =>
        SplitOffTop(layout, node, rest, trees, visited);
        var a, b := FindNode(layout.nodes, node.firstChildId), FindNode(layout.nodes, node.secondChildId);
        var pending' := [layout.nodes[a], layout.nodes[b]] + rest;
        var trees' := [first, second] + trees[1..];
        StackFits(layout, trees', visited + {node.id});
        ForestIsWalked(layout, trees', pending', visited + {node.id});
        WalkFromSplit(layout, node, rest, visited, IntentsOf(layout, visited));
    }
  }

  lemma {:induction false} WalkIsDone(layout: Layout, trees: seq<Tree>, visited: set<string>)
    requires UniqueNodeIds(layout.nodes) && UniqueIntentIds(layout.restoreIntents) && IntentsMatched(layout)
    requires forall k :: 0 <= k < |layout.nodes| ==> NodeInOrder(layout, layout.nodes[k])
    requires trees == [] && Covers(layout, trees, visited)
    ensures Walk(layout, [], visited, IntentsOf(layout, visited))
  {
    assert visited == NodeIds(layout.nodes);
    NodeIdsBound(layout.nodes);
    IntentIdsBound(layout.restoreIntents);
    AllIntentsReferenced(layout);
  }

  lemma {:induction false} WalkFromLeaf(layout: Layout, node: Node, rest: seq<Node>, visited: set<string>, referenced: set<string>)
    requires node.kind.Leaf? && NodeInOrder(layout, node) && node.id in NodeIds(layout.nodes) && node.id !in visited
    requires forall k :: 0 <= k < |rest| ==> rest[k].id in NodeIds(layout.nodes)
    requires node.restoreIntentId !in referenced
    requires Walk(layout, rest, visited + {node.id}, referenced + {node.restoreIntentId})
    ensures Walk(layout, [node] + rest, visited, referenced)
  {
    assert ([node] + rest)[1..] == rest;
  }

  lemma {:induction false} WalkFromSplit(layout: Layout, node: Node, rest: seq<Node>, visited: set<string>, referenced: set<string>)
    requires node.kind.Split? && NodeInOrder(layout, node) && node.id in NodeIds(layout.nodes) && node.id !in visited
    requires forall k :: 0 <= k < |rest| ==> rest[k].id in NodeIds(layout.nodes)
    requires FindNode(layout.nodes, node.firstChildId) < |layout.nodes| && FindNode(layout.nodes, node.secondChildId) < |layout.nodes|
    requires |rest| + 2 <= MAXIMUM_NODES
    requires var a, b := FindNode(layout.nodes, node.firstChildId), FindNode(layout.nodes, node.secondChildId);
      Walk(layout, [layout.nodes[a], layout.nodes[b]] + rest, visited + {node.id}, referenced)
    ensures Walk(layout, [node] + rest, visited, referenced)
  {
    assert ([node] + rest)[1..] == rest;
  }

  lemma {:induction false} AllIntentsReferenced(layout: Layout)
    requires forall k :: 0 <= k < |layout.nodes| ==> NodeInOrder(layout, layout.nodes[k])
    requires IntentsMatched(layout)
    ensures IntentsOf(layout, NodeIds(layout.nodes)) == IntentIds(layout.restoreIntents)
  {
    forall id | id in IntentsOf(layout, NodeIds(layout.nodes))
      ensures id in IntentIds(layout.restoreIntents)
    {
      var k :| 0 <= k < |layout.nodes| && layout.nodes[k].kind.Leaf? && layout.nodes[k].restoreIntentId == id;
      assert NodeInOrder(layout, layout.nodes[k]);
      IntentFound(layout, id);
    }
    forall id | id in IntentIds(layout.restoreIntents)
      ensures id in IntentsOf(layout, NodeIds(layout.nodes))
    {
      var k :| 0 <= k < |layout.nodes| && layout.nodes[k].kind.Leaf? && layout.nodes[k].restoreIntentId == id;
      assert layout.nodes[k].id in NodeIds(layout.nodes);
    }
  }

  lemma {:induction false} TopIsUnvisited(layout: Layout, trees: seq<Tree>, visited: set<string>)
    requires trees != [] && Covers(layout, trees, visited)
    ensures trees[0].id !in visited
  {
    assert ForestIds(trees)[0] == trees[0].id;
    assert trees[0].id in Elements(ForestIds(trees));
  }

  lemma {:induction false} IntentsStep(layout: Layout, node: Node, visited: set<string>)
    requires UniqueNodeIds(layout.nodes) && IntentsMatched(layout) && IsNode(layout, node) && node.id !in visited
    ensures node.kind.Leaf? ==>
      && node.restoreIntentId !in IntentsOf(layout, visited)
      && IntentsOf(layout, visited + {node.id}) == IntentsOf(layout, visited) + {node.restoreIntentId}
    ensures node.kind.Split? ==> IntentsOf(layout, visited + {node.id}) == IntentsOf(layout, visited)
  {
    var at := FindNode(layout.nodes, node.id);
    assert forall k :: 0 <= k < |layout.nodes| && layout.nodes[k].id == node.id ==> k == at;
    if node.kind.Leaf? {
      assert forall k :: 0 <= k < |layout.nodes| && layout.nodes[k].kind.Leaf? && layout.nodes[k].restoreIntentId == node.restoreIntentId ==> k == at;
    }
  }

  lemma {:induction false} LeafOffTop(layout: Layout, node: Node, rest: seq<Node>, trees: seq<Tree>, visited: set<string>)
    requires Rooted(layout, trees, [node] + rest) && trees[0].Tip? && IsNode(layout, node)
    requires Covers(layout, trees, visited)
    ensures node.kind.Leaf?
    ensures Rooted(layout, trees[1..], rest) && Covers(layout, trees[1..], visited + {node.id})
  {
    assert trees[0].id == node.id && Grows(layout.nodes, trees[0]);
    assert ForestIds(trees) == [node.id] + ForestIds(trees[1..]);
    DistinctCons(node.id, ForestIds(trees[1..]));
    forall k | 0 <= k < |trees[1..]|
      ensures trees[1..][k].id == rest[k].id && Grows(layout.nodes, trees[1..][k])
    {
      assert trees[k + 1].id == ([node] + rest)[k + 1].id;
    }
  }

  lemma {:induction false} SplitOffTop(layout: Layout, node: Node, rest: seq<Node>, trees: seq<Tree>, visited: set<string>)
    requires Rooted(layout, trees, [node] + rest) && trees[0].Fork? && IsNode(layout, node) && OnStack(layout, rest)
    requires Covers(layout, trees, visited)
    ensures node.kind.Split?
    ensures FindNode(layout.nodes, node.firstChildId) < |layout.nodes| && FindNode(layout.nodes, node.secondChildId) < |layout.nodes|
    ensures var a, b := FindNode(layout.nodes, node.firstChildId), FindNode(layout.nodes, node.secondChildId);
      var pending := [layout.nodes[a], layout.nodes[b]] + rest;
      && OnStack(layout, pending)
      && (forall k :: 0 <= k < |pending| ==> pending[k].id in NodeIds(layout.nodes))
      && Rooted(layout, [trees[0].first, trees[0].second] + trees[1..], pending)
      && Covers(layout, [trees[0].first, trees[0].second] + trees[1..], visited + {node.id})
  {
    assert trees[0].id == node.id && Grows(layout.nodes, trees[0]);
    assert Grows(layout.nodes, trees[0].first) && Grows(layout.nodes, trees[0].second);
    FoundIsNode(layout, node.firstChildId);
    FoundIsNode(layout, node.secondChildId);
    hide Grows, IsNode, NodeIds, Covers;
    var others := [trees[0].first, trees[0].second] + trees[1..];
    var a, b := FindNode(layout.nodes, node.firstChildId), FindNode(layout.nodes, node.secondChildId);
    var pending := [layout.nodes[a], layout.nodes[b]] + rest;
    assert OnStack(layout, pending);
    OnStackMembers(layout, pending);
    RestRooted(layout, node, rest, trees);
    assert Rooted(layout, others, pending);
    hide Rooted, OnStack;
    SplitOffCovers(layout, trees, visited);
  }

  lemma {:induction false} RestRooted(layout: Layout, node: Node, rest: seq<Node>, trees: seq<Tree>)
    requires Rooted(layout, trees, [node] + rest)
    ensures Rooted(layout, trees[1..], rest)
  {
    hide Grows;
    forall k | 0 <= k < |rest|
      ensures trees[1..][k].id == rest[k].id && Grows(layout.nodes, trees[1..][k])
    {
      assert trees[k + 1].id == ([node] + rest)[k + 1].id && Grows(layout.nodes, trees[k + 1]);
    }
  }

  lemma {:induction false} SplitOffCovers(layout: Layout, trees: seq<Tree>, visited: set<string>)
    requires trees != [] && trees[0].Fork? && Covers(layout, trees, visited)
    ensures Covers(layout, [trees[0].first, trees[0].second] + trees[1..], visited + {trees[0].id})
  {
    var others := [trees[0].first, trees[0].second] + trees[1..];
    assert trees == [Fork(trees[0].id, others[0], others[1])] + others[2..];
    ForkIds(trees[0].id, others);
    DistinctCons(trees[0].id, ForestIds(others));
  }

  lemma {:induction false} ForestSize(trees: seq<Tree>)
    ensures |ForestIds(trees)| >= |trees|
  {
    if trees != [] {
      ForestSize(trees[1..]);
    }
  }

  lemma {:induction false} DistinctSize(s: seq<string>)
    requires Distinct(s)
    ensures |Elements(s)| == |s|
  {
    if s != [] {
      assert s == [s[0]] + s[1..];
      DistinctCons(s[0], s[1..]);
      DistinctSize(s[1..]);
    }
  }

  /** There are at least as many unvisited nodes as stack entries, so the capacity test never fails. */
  lemma {:induction false} StackFits(layout: Layout, trees: seq<Tree>, visited: set<string>)
    requires Covers(layout, trees, visited) && |layout.nodes| <= MAXIMUM_NODES
    ensures |trees| <= MAXIMUM_NODES
  {
    ForestSize(trees);
    DistinctSize(ForestIds(trees));
    NodeIdsBound(layout.nodes);
    assert |Elements(ForestIds(trees)) + visited| == |Elements(ForestIds(trees))| + |visited|;
  }

  /** The validator accepts exactly the well-formed layouts. */
  lemma {:induction false} ValidExactlyIfWellFormed(layout: Layout)
    ensures ValidLayout(layout) <==> WellFormed(layout)
  {
    if ValidLayout(layout) {
      ValidIsWellFormed(layout);
    }
    if WellFormed(layout) {
      var tree :| Spans(layout, tree);
      var root := layout.nodes[FindNode(layout.nodes, layout.rootNodeId)];
      FoundIsNode(layout, layout.rootNodeId);
      assert [tree][1..] == [];
      assert ForestIds([tree]) == Ids(tree) + ForestIds([tree][1..]) == Ids(tree);
      assert Rooted(layout, [tree], [root]) && Covers(layout, [tree], {});
      ForestIsWalked(layout, [tree], [root], {});
      assert IntentsOf(layout, {}) == {};
    }
  }
}
