/**
 What the operations on panes do to the tree of a tab, and so to the order of its panes on the
 screen.  The operations edit a flat node list; each edit is shown to be one edit of the tree.
 */
module PaneOrder {
  import opened WorkspaceState
  import opened PaneTree
  import opened WorkspaceTransfer

  // ----- the tree of a layout -----

  function Lookup(nodes: seq<Node>, id: string): Option<Node> {
    var k := FindNode(nodes, id);
    if k < |nodes| then Some(nodes[k]) else None
  }

  lemma {:induction false} LookupMember(nodes: seq<Node>, k: nat)
    requires UniqueNodeIds(nodes) && k < |nodes|
    ensures FindNode(nodes, nodes[k].id) == k && Lookup(nodes, nodes[k].id) == Some(nodes[k])
  {
    assert FindNode(nodes, nodes[k].id) <= k;
  }

  /** A node list grows at most one tree from an id. */
  lemma {:induction false} GrowsOneTree(nodes: seq<Node>, a: Tree, b: Tree)
    requires Grows(nodes, a) && Grows(nodes, b) && a.id == b.id
    ensures a == b
  {
    if a.Fork? && b.Fork? {
      GrowsOneTree(nodes, a.first, b.first);
      GrowsOneTree(nodes, a.second, b.second);
    }
  }

  ghost function TreeOf(layout: Layout): (tree: Tree)
    requires ValidLayout(layout)
    ensures Spans(layout, tree)
  {
    ValidIsWellFormed(layout);
    var tree :| Spans(layout, tree);
    tree
  }

  /** The panes of a tab from left to right. */
  ghost function Order(layout: Layout): seq<string>
    requires ValidLayout(layout)
  {
    Panes(TreeOf(layout))
  }

  /** Growing from the root is enough to be the tree of a valid layout. */
  lemma {:induction false} IsTheTree(layout: Layout, tree: Tree)
    requires ValidLayout(layout) && tree.id == layout.rootNodeId && Grows(layout.nodes, tree)
    ensures TreeOf(layout) == tree && Spans(layout, tree)
  {
    hide ValidLayout;
    GrowsOneTree(layout.nodes, tree, TreeOf(layout));
  }

  // ----- edits of sequences and trees -----

  function Without(s: seq<string>, x: string): seq<string> {
    if s == [] then [] else (if s[0] == x then [] else [s[0]]) + Without(s[1..], x)
  }

  /** `middle` in the place of `x`. */
  function Spliced(s: seq<string>, x: string, middle: seq<string>): seq<string> {
    if s == [] then [] else (if s[0] == x then middle else [s[0]]) + Spliced(s[1..], x, middle)
  }

  function Renamed(s: seq<string>, f: string -> string): seq<string> {
    if s == [] then [] else [f(s[0])] + Renamed(s[1..], f)
  }

  /** `x` beside `at`. */
  function Beside(at: string, x: seq<string>, placeAfter: bool): seq<string> {
    if placeAfter then [at] + x else x + [at]
  }

  lemma {:induction false} WithoutCons(y: string, s: seq<string>, x: string)
    ensures Without([y] + s, x) == (if y == x then [] else [y]) + Without(s, x)
  {
    assert ([y] + s)[1..] == s;
  }

  lemma {:induction false} WithoutAppend(a: seq<string>, b: seq<string>, x: string)
    ensures Without(a + b, x) == Without(a, x) + Without(b, x)
  {
    if a == [] {
      assert a + b == b;
      return;
    }
    hide Without;
    assert a == [a[0]] + a[1..] && a + b == [a[0]] + (a[1..] + b);
    WithoutCons(a[0], a[1..], x);
    WithoutCons(a[0], a[1..] + b, x);
    WithoutAppend(a[1..], b, x);
  }

  lemma {:induction false} SplicedCons(y: string, s: seq<string>, x: string, middle: seq<string>)
    ensures Spliced([y] + s, x, middle) == (if y == x then middle else [y]) + Spliced(s, x, middle)
  {
    assert ([y] + s)[1..] == s;
  }

  lemma {:induction false} SplicedAppend(a: seq<string>, b: seq<string>, x: string, middle: seq<string>)
    ensures Spliced(a + b, x, middle) == Spliced(a, x, middle) + Spliced(b, x, middle)
  {
    if a == [] {
      assert a + b == b;
      return;
    }
    hide Spliced;
    assert a == [a[0]] + a[1..] && a + b == [a[0]] + (a[1..] + b);
    SplicedCons(a[0], a[1..], x, middle);
    SplicedCons(a[0], a[1..] + b, x, middle);
    SplicedAppend(a[1..], b, x, middle);
  }

  lemma {:induction false} RenamedCons(y: string, s: seq<string>, f: string -> string)
    ensures Renamed([y] + s, f) == ([f(y)]) + Renamed(s, f)
  {
    assert ([y] + s)[1..] == s;
  }

  lemma {:induction false} RenamedAppend(a: seq<string>, b: seq<string>, f: string -> string)
    ensures Renamed(a + b, f) == Renamed(a, f) + Renamed(b, f)
  {
    if a == [] {
      assert a + b == b;
      return;
    }
    hide Renamed;
    assert a == [a[0]] + a[1..] && a + b == [a[0]] + (a[1..] + b);
    RenamedCons(a[0], a[1..], f);
    RenamedCons(a[0], a[1..] + b, f);
    RenamedAppend(a[1..], b, f);
  }

  lemma {:induction false} WithoutNothing(s: seq<string>, x: string)
    requires x !in s
    ensures Without(s, x) == s
  {
    if s != [] {
      WithoutNothing(s[1..], x);
    }
  }

  lemma {:induction false} SplicedNothing(s: seq<string>, x: string, middle: seq<string>)
    requires x !in s
    ensures Spliced(s, x, middle) == s
  {
    if s != [] {
      SplicedNothing(s[1..], x, middle);
    }
  }

  /** The leaf `pane` goes, its sibling takes the place of their parent. */
  function Prune(tree: Tree, pane: string): Tree {
    match tree
    case Tip(_) => tree
    case Fork(id, first, second) =>
      if first == Tip(pane) then second
      else if second == Tip(pane) then first
      else Fork(id, Prune(first, pane), Prune(second, pane))
  }

  /** The leaf `at` becomes a new split of itself and `other`. */
  function Graft(tree: Tree, at: string, splitId: string, other: Tree, placeAfter: bool): Tree {
    match tree
    case Tip(id) =>
      if id != at then tree
      else if placeAfter then Fork(splitId, tree, other) else Fork(splitId, other, tree)
    case Fork(id, first, second) => Fork(id, Graft(first, at, splitId, other, placeAfter), Graft(second, at, splitId, other, placeAfter))
  }

  function Relabelled(tree: Tree, f: string -> string): Tree {
    match tree
    case Tip(id) => Tip(f(id))
    case Fork(id, first, second) => Fork(id, Relabelled(first, f), Relabelled(second, f))
  }

  lemma {:induction false} PanesAmongIds(tree: Tree)
    ensures Elements(Panes(tree)) <= Elements(Ids(tree))
  {
    match tree {
      case Tip(_) =>
      case Fork(id, first, second) =>
        PanesAmongIds(first);
        PanesAmongIds(second);
        ElementsAppend(Panes(first), Panes(second));
        ElementsOfFork(id, first, second);
    }
  }

  lemma {:induction false} ElementsAppend(a: seq<string>, b: seq<string>)
    ensures Elements(a + b) == Elements(a) + Elements(b)
  {
    forall x | x in Elements(a) + Elements(b)
      ensures x in a + b
    {
    }
  }

  lemma {:induction false} ElementsOfFork(id: string, first: Tree, second: Tree)
    ensures Elements(Ids(Fork(id, first, second))) == {id} + Elements(Ids(first)) + Elements(Ids(second))
  {
    ElementsAppend([id] + Ids(first), Ids(second));
    ElementsAppend([id], Ids(first));
  }

  /** With distinct ids the parts of a fork share nothing. */
  lemma {:induction false} DistinctFork(id: string, first: Tree, second: Tree)
    ensures Distinct(Ids(Fork(id, first, second))) <==>
      && Distinct(Ids(first)) && Distinct(Ids(second))
      && Elements(Ids(first)) !! Elements(Ids(second))
      && id !in Elements(Ids(first)) && id !in Elements(Ids(second))
  {
    var a, b := Ids(first), Ids(second);
    assert Ids(Fork(id, first, second)) == [id] + (a + b);
    DistinctCons(id, a + b);
    ElementsAppend(a, b);
    DistinctAppend(a, b);
  }

  lemma {:induction false} DistinctAppend(a: seq<string>, b: seq<string>)
    ensures Distinct(a + b) <==> Distinct(a) && Distinct(b) && Elements(a) !! Elements(b)
  {
    if a == [] {
      assert a + b == b;
      return;
    }
    hide Distinct;
    assert a == [a[0]] + a[1..] && a + b == [a[0]] + (a[1..] + b);
    DistinctCons(a[0], a[1..]);
    DistinctCons(a[0], a[1..] + b);
    DistinctAppend(a[1..], b);
    ElementsAppend(a[1..], b);
  }

  lemma {:induction false} RootAmongIds(tree: Tree)
    ensures tree.id in Elements(Ids(tree))
  {
    assert Ids(tree)[0] == tree.id;
  }

  lemma {:induction false} PanesPruned(tree: Tree, pane: string)
    requires Distinct(Ids(tree)) && tree != Tip(pane)
    ensures Panes(Prune(tree, pane)) == Without(Panes(tree), pane)
  {
    match tree {
      case Tip(_) =>
      case Fork(id, first, second) =>
        DistinctFork(id, first, second);
        hide Distinct;
        PanesAmongIds(first);
        PanesAmongIds(second);
        WithoutAppend(Panes(first), Panes(second), pane);
        if first == Tip(pane) {
          RootAmongIds(first);
          WithoutNothing(Panes(second), pane);
        } else if second == Tip(pane) {
          RootAmongIds(second);
          WithoutNothing(Panes(first), pane);
          assert Panes(first) + [] == Panes(first);
        } else {
          PanesPruned(first, pane);
          PanesPruned(second, pane);
        }
    }
  }

  lemma {:induction false} PanesGrafted(tree: Tree, at: string, splitId: string, other: Tree, placeAfter: bool)
    ensures Panes(Graft(tree, at, splitId, other, placeAfter)) == Spliced(Panes(tree), at, Beside(at, Panes(other), placeAfter))
  {
    match tree {
      case Tip(_) =>
      case Fork(_, first, second) =>
        PanesGrafted(first, at, splitId, other, placeAfter);
        PanesGrafted(second, at, splitId, other, placeAfter);
        SplicedAppend(Panes(first), Panes(second), at, Beside(at, Panes(other), placeAfter));
    }
  }

  lemma {:induction false} PanesRelabelled(tree: Tree, f: string -> string)
    ensures Panes(Relabelled(tree, f)) == Renamed(Panes(tree), f)
  {
    match tree {
      case Tip(_) =>
      case Fork(_, first, second) =>
        PanesRelabelled(first, f);
        PanesRelabelled(second, f);
        RenamedAppend(Panes(first), Panes(second), f);
    }
  }

  lemma {:induction false} PruneNothing(tree: Tree, pane: string)
    requires pane !in Elements(Ids(tree))
    ensures Prune(tree, pane) == tree
  {
    match tree {
      case Tip(_) =>
      case Fork(id, first, second) =>
        ElementsOfFork(id, first, second);
        RootAmongIds(first);
        RootAmongIds(second);
        PruneNothing(first, pane);
        PruneNothing(second, pane);
    }
  }

  // ----- edits of the node list that edit the tree -----

  /** Apart from the nodes `gone`, all nodes are kept, with one child id redirected. */
  ghost predicate Redirected(before: seq<Node>, after: seq<Node>, gone: set<string>, id: string, newId: string) {
    forall k :: 0 <= k < |before| && before[k].id !in gone ==> Lookup(after, before[k].id) == Some(Redirect(before[k], id, newId))
  }

  lemma {:induction false} GrowsAlso(before: seq<Node>, after: seq<Node>, tree: Tree)
    requires Grows(before, tree)
    requires forall k :: 0 <= k < |before| ==> Lookup(after, before[k].id) == Some(before[k])
    ensures Grows(after, tree)
  {
    assert before[FindNode(before, tree.id)].id == tree.id;
    if tree.Fork? {
      GrowsAlso(before, after, tree.first);
      GrowsAlso(before, after, tree.second);
    }
  }

  lemma {:induction false} GraftGrows(before: seq<Node>, after: seq<Node>, tree: Tree, at: string, split: Node, other: Tree, placeAfter: bool)
    requires Grows(before, tree) && IsLeaf(before, at) && Redirected(before, after, {}, at, split.id)
    requires Grows(after, other) && Lookup(after, split.id) == Some(split) && split.kind.Split?
    requires split.firstChildId == (if placeAfter then at else other.id) && split.secondChildId == if placeAfter then other.id else at
    ensures var grafted := Graft(tree, at, split.id, other, placeAfter);
      Grows(after, grafted) && grafted.id == RedirectId(tree.id, at, split.id)
  {
    assert before[FindNode(before, tree.id)].id == tree.id;
    if tree.Fork? {
      GraftGrows(before, after, tree.first, at, split, other, placeAfter);
      GraftGrows(before, after, tree.second, at, split, other, placeAfter);
    } else {
      assert Grows(after, tree);
    }
  }

  /** Tips are renamed by `f`, forks are not but keep their form, and children follow. */
  ghost predicate RenamedBy(before: seq<Node>, after: seq<Node>, f: string -> string) {
    forall k :: 0 <= k < |before| ==> NodeRenamed(before[k], after, f)
  }

  predicate NodeRenamed(before: Node, after: seq<Node>, f: string -> string) {
    var found := Lookup(after, f(before.id));
    && found.Some?
    && match before.kind
       case Leaf => found.value.kind.Leaf?
       case Split =>
         && f(before.id) == before.id && found.value.kind.Split?
         && found.value.firstChildId == f(before.firstChildId) && found.value.secondChildId == f(before.secondChildId)
         && found.value.orientation == before.orientation && found.value.ratio == before.ratio
  }

  lemma {:induction false} RelabelGrows(before: seq<Node>, after: seq<Node>, tree: Tree, f: string -> string)
    requires Grows(before, tree) && RenamedBy(before, after, f)
    ensures Grows(after, Relabelled(tree, f)) && Relabelled(tree, f).id == f(tree.id)
  {
    assert before[FindNode(before, tree.id)].id == tree.id;
    if tree.Fork? {
      RelabelGrows(before, after, tree.first, f);
      RelabelGrows(before, after, tree.second, f);
    }
  }

  // ----- parents -----

  /** `id` is a fork of the tree with `child` directly below it. */
  predicate Forks(tree: Tree, id: string, child: string) {
    tree.Fork? && (
      || (tree.id == id && (tree.first.id == child || tree.second.id == child))
      || Forks(tree.first, id, child) || Forks(tree.second, id, child))
  }

  lemma {:induction false} ForksAmongIds(tree: Tree, id: string, child: string)
    requires Forks(tree, id, child)
    ensures id in Elements(Ids(tree)) && child in Elements(Ids(tree))
    ensures Distinct(Ids(tree)) ==> child != tree.id
  {
    ElementsOfFork(tree.id, tree.first, tree.second);
    DistinctFork(tree.id, tree.first, tree.second);
    RootAmongIds(tree.first);
    RootAmongIds(tree.second);
    hide Distinct;
    if Forks(tree.first, id, child) {
      ForksAmongIds(tree.first, id, child);
    } else if Forks(tree.second, id, child) {
      ForksAmongIds(tree.second, id, child);
    }
  }

  /** Nothing hangs off two forks. */
  lemma {:induction false} OneFork(tree: Tree, p: string, q: string, child: string)
    requires Distinct(Ids(tree)) && Forks(tree, p, child) && Forks(tree, q, child)
    ensures p == q
  {
    DistinctFork(tree.id, tree.first, tree.second);
    RootAmongIds(tree.first);
    RootAmongIds(tree.second);
    hide Distinct;
    forall part, id | part in {tree.first, tree.second} && id in {p, q} && Forks(part, id, child)
      ensures child in Elements(Ids(part)) && child != part.id
    {
      ForksAmongIds(part, id, child);
    }
    if Forks(tree.first, p, child) && Forks(tree.first, q, child) {
      OneFork(tree.first, p, q, child);
    } else if Forks(tree.second, p, child) && Forks(tree.second, q, child) {
      OneFork(tree.second, p, q, child);
    }
  }

  predicate HasChild(node: Node, child: string) {
    node.firstChildId == child || node.secondChildId == child
  }

  lemma {:induction false} NodeForks(nodes: seq<Node>, tree: Tree, k: nat, child: string)
    requires Grows(nodes, tree) && UniqueNodeIds(nodes) && k < |nodes| && nodes[k].kind.Split? && HasChild(nodes[k], child)
    requires nodes[k].id in Elements(Ids(tree))
    ensures Forks(tree, nodes[k].id, child)
  {
    LookupMember(nodes, k);
    hide UniqueNodeIds;
    if tree.Fork? && nodes[k].id != tree.id {
      ElementsOfFork(tree.id, tree.first, tree.second);
      if nodes[k].id in Elements(Ids(tree.first)) {
        NodeForks(nodes, tree.first, k, child);
      } else {
        NodeForks(nodes, tree.second, k, child);
      }
    }
  }

  lemma {:induction false} ForksNode(nodes: seq<Node>, tree: Tree, id: string, child: string)
    requires Grows(nodes, tree) && Forks(tree, id, child)
    ensures Lookup(nodes, id).Some? && Lookup(nodes, id).value.kind.Split? && HasChild(Lookup(nodes, id).value, child)
  {
    if Forks(tree.first, id, child) {
      ForksNode(nodes, tree.first, id, child);
    } else if Forks(tree.second, id, child) {
      ForksNode(nodes, tree.second, id, child);
    }
  }

  lemma {:induction false} SomeFork(tree: Tree, child: string) returns (id: string)
    requires child in Elements(Ids(tree)) && child != tree.id
    ensures Forks(tree, id, child)
  {
    id := tree.id;
    if tree.Fork? {
      ElementsOfFork(tree.id, tree.first, tree.second);
      if child in Elements(Ids(tree.first)) && child != tree.first.id {
        id := SomeFork(tree.first, child);
      } else if child in Elements(Ids(tree.second)) && child != tree.second.id {
        id := SomeFork(tree.second, child);
      }
    }
  }

  // ----- redirecting the one edge to a node is redirecting all of them -----

  /** All splits belong to the tree, and leaves have no children. */
  ghost predicate SplitsInTree(nodes: seq<Node>, tree: Tree) {
    && UniqueNodeIds(nodes) && Grows(nodes, tree) && Distinct(Ids(tree))
    && forall k :: 0 <= k < |nodes| ==>
         if nodes[k].kind.Split? then nodes[k].id in Elements(Ids(tree)) else nodes[k].firstChildId == "" && nodes[k].secondChildId == ""
  }

  lemma {:induction false} OneParent(nodes: seq<Node>, tree: Tree, child: string, k: nat)
    requires SplitsInTree(nodes, tree) && child != "" && k < |nodes| && HasChild(nodes[k], child)
    ensures FindParent(nodes, child) == k && child != tree.id
    ensures nodes[k].firstChildId != nodes[k].secondChildId
  {
    var p := FirstParent(nodes, child, k);
    NodeForks(nodes, tree, k, child);
    NodeForks(nodes, tree, p, child);
    OneFork(tree, nodes[k].id, nodes[p].id, child);
    ForksAmongIds(tree, nodes[k].id, child);
    LookupMember(nodes, k);
    LookupMember(nodes, p);
    TwoChildren(nodes, tree, k);
  }

  lemma {:induction false} TwoChildren(nodes: seq<Node>, tree: Tree, k: nat)
    requires Grows(nodes, tree) && Distinct(Ids(tree)) && UniqueNodeIds(nodes)
    requires k < |nodes| && nodes[k].kind.Split? && nodes[k].id in Elements(Ids(tree))
    ensures nodes[k].firstChildId != nodes[k].secondChildId
  {
    LookupMember(nodes, k);
    hide UniqueNodeIds, Distinct;
    if tree.Fork? {
      DistinctFork(tree.id, tree.first, tree.second);
      ElementsOfFork(tree.id, tree.first, tree.second);
      RootAmongIds(tree.first);
      RootAmongIds(tree.second);
      if nodes[k].id in Elements(Ids(tree.first)) {
        TwoChildren(nodes, tree.first, k);
      } else if nodes[k].id in Elements(Ids(tree.second)) {
        TwoChildren(nodes, tree.second, k);
      }
    }
  }

  lemma {:induction false} FirstParent(nodes: seq<Node>, child: string, k: nat) returns (p: nat)
    requires k < |nodes| && nodes[k].kind.Split? && HasChild(nodes[k], child)
    ensures p == FindParent(nodes, child) < |nodes| && nodes[p].kind.Split? && HasChild(nodes[p], child)
  {
    p := FindParent(nodes, child);
    if k > 0 && p != 0 {
      var q := FirstParent(nodes[1..], child, k - 1);
    }
  }

  lemma {:induction false} ParentExists(nodes: seq<Node>, tree: Tree, child: string)
    requires Grows(nodes, tree) || SplitsInTree(nodes, tree)
    requires child in Elements(Ids(tree)) && child != tree.id
    ensures FindParent(nodes, child) < |nodes|
  {
    var id := SomeFork(tree, child);
    ForksNode(nodes, tree, id, child);
    var p := FirstParent(nodes, child, FindNode(nodes, id));
  }

  lemma {:induction false} ValidSplitsInTree(layout: Layout)
    requires ValidLayout(layout)
    ensures SplitsInTree(layout.nodes, TreeOf(layout))
    ensures forall k :: 0 <= k < |layout.nodes| ==> layout.nodes[k].id != "" && layout.nodes[k].id in Elements(Ids(TreeOf(layout)))
  {
    ValidIsWellFormed(layout);
    var tree := TreeOf(layout);
    hide ValidLayout, Walk, Grows, Distinct, IntentsMatched;
    forall k | 0 <= k < |layout.nodes|
      ensures layout.nodes[k].id in Elements(Ids(tree)) && NodeInOrder(layout, layout.nodes[k])
    {
      assert layout.nodes[k].id in NodeIds(layout.nodes);
    }
  }

  /** Promoting redirects the only edge to the parent, or the root. */
  lemma {:induction false} PromoteReplaces(layout: Layout, tree: Tree, parentId: string, siblingId: string)
    requires SplitsInTree(layout.nodes, tree) && tree.id == layout.rootNodeId && parentId != "" && parentId in Elements(Ids(tree))
    ensures Promote(layout, parentId, siblingId) == ReplaceChild(layout, parentId, siblingId)
  {
    hide SplitsInTree;
    var nodes := layout.nodes;
    var g := FindParent(nodes, parentId);
    forall k | 0 <= k < |nodes| && HasChild(nodes[k], parentId)
      ensures k == g && parentId != tree.id && nodes[k].firstChildId != nodes[k].secondChildId
    {
      OneParent(nodes, tree, parentId, k);
    }
    if parentId != tree.id {
      ParentExists(nodes, tree, parentId);
    }
    forall k | 0 <= k < |nodes|
      ensures Promote(layout, parentId, siblingId).nodes[k] == Redirect(nodes[k], parentId, siblingId)
    {
      assert k != g ==> !HasChild(nodes[k], parentId);
    }
    assert Promote(layout, parentId, siblingId).nodes == RedirectAll(nodes, parentId, siblingId);
  }

  lemma {:induction false} LookupRedirected(nodes: seq<Node>, x: string, y: string, id: string)
    ensures var found := Lookup(nodes, id);
      Lookup(RedirectAll(nodes, x, y), id) == if found.None? then None else Some(Redirect(found.value, x, y))
  {
    hide RedirectAll, FindNode;
    var all := RedirectAll(nodes, x, y);
    var j, k := FindNode(nodes, id), FindNode(all, id);
    assert j < |nodes| ==> all[j].id == id;
    assert k < |nodes| ==> nodes[k].id == id;
  }

  lemma {:induction false} LookupErased(nodes: seq<Node>, a: string, b: string, id: string)
    requires id != a && id != b
    ensures Lookup(EraseNodes(nodes, a, b), id) == Lookup(nodes, id)
  {
    hide Lookup;
    if nodes == [] {
      return;
    }
    LookupErased(nodes[1..], a, b, id);
    var rest := EraseNodes(nodes[1..], a, b);
    assert EraseNodes(nodes, a, b) == if nodes[0].id == a || nodes[0].id == b then rest else [nodes[0]] + rest;
    assert nodes == [nodes[0]] + nodes[1..];
    LookupCons(nodes[0], nodes[1..], id);
    LookupCons(nodes[0], rest, id);
  }

  lemma {:induction false} LookupCons(node: Node, rest: seq<Node>, id: string)
    ensures Lookup([node] + rest, id) == if node.id == id then Some(node) else Lookup(rest, id)
  {
    assert ([node] + rest)[1..] == rest;
  }

  /** Redirecting the edge to the parent and erasing it, and possibly the pane. */
  lemma {:induction false} ErasedIsRedirected(nodes: seq<Node>, a: string, parentId: string, siblingId: string)
    requires UniqueNodeIds(nodes)
    ensures Redirected(nodes, EraseNodes(RedirectAll(nodes, parentId, siblingId), a, parentId), {a, parentId}, parentId, siblingId)
  {
    var redirected := RedirectAll(nodes, parentId, siblingId);
    forall k | 0 <= k < |nodes| && nodes[k].id !in {a, parentId}
      ensures Lookup(EraseNodes(redirected, a, parentId), nodes[k].id) == Some(Redirect(nodes[k], parentId, siblingId))
    {
      LookupErased(redirected, a, parentId, nodes[k].id);
      LookupRedirected(nodes, parentId, siblingId, nodes[k].id);
      LookupMember(nodes, k);
    }
  }

  /** `parent` is the split that holds `pane` and `siblingId`. */
  predicate IsParent(nodes: seq<Node>, parent: Node, pane: string, siblingId: string) {
    && Lookup(nodes, parent.id) == Some(parent) && parent.kind.Split? && pane != siblingId
    && (parent.firstChildId == pane || parent.secondChildId == pane)
    && siblingId == if parent.firstChildId == pane then parent.secondChildId else parent.firstChildId
  }

  /** The pane hangs off no other fork. */
  ghost predicate OnlyBelow(tree: Tree, pane: string, parentId: string) {
    forall p :: Forks(tree, p, pane) ==> p == parentId
  }

  lemma {:induction false} PruneGrows(before: seq<Node>, after: seq<Node>, tree: Tree, pane: string, parent: Node, siblingId: string)
    requires Grows(before, tree) && Distinct(Ids(tree)) && IsLeaf(before, pane) && pane != tree.id
    requires IsParent(before, parent, pane, siblingId) && OnlyBelow(tree, pane, parent.id)
    requires Redirected(before, after, {pane, parent.id}, parent.id, siblingId)
    ensures Grows(after, Prune(tree, pane)) && Prune(tree, pane).id == RedirectId(tree.id, parent.id, siblingId)
  {
    hide Distinct, OnlyBelow, Redirected, FindNode, Ids, Elements, Forks;
    if tree.Tip? {
      RedirectedAt(before, after, tree.id, pane, parent.id, siblingId);
      return;
    }
    DistinctFork(tree.id, tree.first, tree.second);
    RootAmongIds(tree.first);
    RootAmongIds(tree.second);
    PartsOnlyBelow(tree, pane, parent.id);
    if tree.first.id == pane {
      PruneGrows(before, after, tree.second, pane, parent, siblingId);
      PruneNothing(tree.second, pane);
    } else if tree.second.id == pane {
      PruneGrows(before, after, tree.first, pane, parent, siblingId);
      PruneNothing(tree.first, pane);
    } else {
      PruneGrows(before, after, tree.first, pane, parent, siblingId);
      PruneGrows(before, after, tree.second, pane, parent, siblingId);
      RedirectedAt(before, after, tree.id, pane, parent.id, siblingId);
    }
  }

  lemma {:induction false} RedirectedAt(before: seq<Node>, after: seq<Node>, id: string, pane: string, parentId: string, siblingId: string)
    requires Redirected(before, after, {pane, parentId}, parentId, siblingId)
    requires Lookup(before, id).Some? && id != pane && id != parentId
    ensures Lookup(after, id) == Some(Redirect(Lookup(before, id).value, parentId, siblingId))
  {
    var k := FindNode(before, id);
    assert before[k].id == id;
  }

  lemma {:induction false} PartsOnlyBelow(tree: Tree, pane: string, parentId: string)
    requires tree.Fork? && OnlyBelow(tree, pane, parentId)
    ensures OnlyBelow(tree.first, pane, parentId) && OnlyBelow(tree.second, pane, parentId)
    ensures tree.first.id == pane || tree.second.id == pane ==> tree.id == parentId
  {
    assert Forks(tree, tree.id, pane) <== tree.first.id == pane || tree.second.id == pane;
    forall p | Forks(tree.first, p, pane) || Forks(tree.second, p, pane)
      ensures p == parentId
    {
      assert Forks(tree, p, pane);
    }
  }

  lemma {:induction false} TipIds(id: string)
    ensures Elements(Ids(Tip(id))) == {id}
  {
  }

  /** Pruning takes exactly the pane and its parent out. */
  lemma {:induction false} PrunedIds(nodes: seq<Node>, tree: Tree, pane: string, parentId: string)
    requires Grows(nodes, tree) && Distinct(Ids(tree)) && IsLeaf(nodes, pane) && Forks(tree, parentId, pane)
    ensures Elements(Ids(Prune(tree, pane))) == Elements(Ids(tree)) - {pane, parentId}
    ensures Distinct(Ids(Prune(tree, pane)))
  {
    hide FindNode, Elements;
    var first, second := tree.first, tree.second;
    DistinctFork(tree.id, first, second);
    ElementsOfFork(tree.id, first, second);
    RootAmongIds(first);
    RootAmongIds(second);
    if first.id == pane || second.id == pane {
      assert Forks(tree, tree.id, pane);
      OneFork(tree, tree.id, parentId, pane);
      assert first.id == pane ==> first == Tip(pane);
      assert second.id == pane ==> second == Tip(pane);
      TipIds(pane);
      return;
    }
    hide Distinct;
    DistinctFork(tree.id, Prune(first, pane), Prune(second, pane));
    ElementsOfFork(tree.id, Prune(first, pane), Prune(second, pane));
    if Forks(first, parentId, pane) {
      ForksAmongIds(first, parentId, pane);
      PrunedIds(nodes, first, pane, parentId);
      PruneNothing(second, pane);
    } else {
      ForksAmongIds(second, parentId, pane);
      PrunedIds(nodes, second, pane, parentId);
      PruneNothing(first, pane);
    }
  }

  // ----- closing a pane -----

  /** The parent that closing and moving find is the pane's parent in the tree. */
  lemma {:induction false} ParentFound(layout: Layout, pane: string)
    requires ValidLayout(layout) && IsLeaf(layout.nodes, pane) && FindParent(layout.nodes, pane) < |layout.nodes|
    ensures var parent := layout.nodes[FindParent(layout.nodes, pane)];
      var siblingId := if parent.firstChildId == pane then parent.secondChildId else parent.firstChildId;
      var tree := TreeOf(layout);
      && IsParent(layout.nodes, parent, pane, siblingId) && pane != tree.id && parent.id != "" && pane != "" && siblingId != ""
      && OnlyBelow(tree, pane, parent.id) && Forks(tree, parent.id, pane)
      && Promote(layout, parent.id, siblingId) == ReplaceChild(layout, parent.id, siblingId)
  {
    var tree := TreeOf(layout);
    var nodes := layout.nodes;
    var k := FindParent(nodes, pane);
    ValidSplitsInTree(layout);
    hide ValidLayout;
    var siblingId := if nodes[k].firstChildId == pane then nodes[k].secondChildId else nodes[k].firstChildId;
    assert nodes[FindNode(nodes, pane)].id == pane;
    PromoteReplaces(layout, tree, nodes[k].id, siblingId);
    OneParent(nodes, tree, pane, k);
    LookupMember(nodes, k);
    NodeForks(nodes, tree, k, pane);
    NodeForks(nodes, tree, k, siblingId);
    ForksAmongIds(tree, nodes[k].id, siblingId);
    hide SplitsInTree;
    assert siblingId != "" by {
      assert siblingId in NodeIds(nodes);
    }
    forall p | Forks(tree, p, pane)
      ensures p == nodes[k].id
    {
      assert Distinct(Ids(tree)) by {
        assert SplitsInTree(nodes, tree);
      }
      OneFork(tree, p, nodes[k].id, pane);
    }
  }

  /** Closing a pane prunes the tree: the other panes keep their order. */
  lemma {:induction false} CloseRemovesFromOrder(layout: Layout, pane: string)
    requires CloseTerminalPane(layout, pane).Some?
    ensures ValidLayout(layout) && ValidLayout(CloseTerminalPane(layout, pane).value)
    ensures TreeOf(CloseTerminalPane(layout, pane).value) == Prune(TreeOf(layout), pane)
    ensures Order(CloseTerminalPane(layout, pane).value) == Without(Order(layout), pane)
  {
    var tree := TreeOf(layout);
    var closed := CloseTerminalPane(layout, pane).value;
    var parent := layout.nodes[FindParent(layout.nodes, pane)];
    var siblingId := if parent.firstChildId == pane then parent.secondChildId else parent.firstChildId;
    ParentFound(layout, pane);
    ValidSplitsInTree(layout);
    assert closed.nodes == EraseNodes(RedirectAll(layout.nodes, parent.id, siblingId), pane, parent.id);
    assert closed.rootNodeId == RedirectId(layout.rootNodeId, parent.id, siblingId);
    hide ValidLayout, CloseTerminalPane, Promote, ReplaceChild;
    ErasedIsRedirected(layout.nodes, pane, parent.id, siblingId);
    PruneGrows(layout.nodes, closed.nodes, tree, pane, parent, siblingId);
    IsTheTree(closed, Prune(tree, pane));
    PanesPruned(tree, pane);
  }

  // ----- inserting a tree -----

  lemma {:induction false} UniqueOfValid(layout: Layout)
    requires ValidLayout(layout)
    ensures UniqueNodeIds(layout.nodes)
  {
  }

  /** The nodes of a list of three parts, the first with one child id redirected. */
  lemma {:induction false} PartsOf(before: seq<Node>, id: string, newId: string, middle: seq<Node>, last: Node)
    requires UniqueNodeIds(RedirectAll(before, id, newId) + middle + [last])
    ensures var all := RedirectAll(before, id, newId) + middle + [last];
      && Redirected(before, all, {}, id, newId)
      && (forall k :: 0 <= k < |middle| ==> Lookup(all, middle[k].id) == Some(middle[k]))
      && Lookup(all, last.id) == Some(last)
  {
    var first := RedirectAll(before, id, newId);
    var all := first + middle + [last];
    forall k | 0 <= k < |before|
      ensures Lookup(all, before[k].id) == Some(Redirect(before[k], id, newId))
    {
      assert all[k] == first[k];
      LookupMember(all, k);
    }
    forall k | 0 <= k < |middle|
      ensures Lookup(all, middle[k].id) == Some(middle[k])
    {
      assert all[|first| + k] == middle[k];
      LookupMember(all, |first| + k);
    }
    assert all[|all| - 1] == last;
    LookupMember(all, |all| - 1);
  }

  /** Inserting grafts the source's tree: its panes come, in order, beside the target pane. */
  lemma {:induction false} InsertJoinsOrder(target: Layout, source: Layout, tree: Tree, transfer: Transfer)
    requires ValidLayout(target) && Grows(source.nodes, tree) && tree.id == source.rootNodeId && InsertTree(target, source, transfer).Some?
    ensures ValidLayout(InsertTree(target, source, transfer).value)
    ensures TreeOf(InsertTree(target, source, transfer).value)
         == Graft(TreeOf(target), transfer.targetPaneId, transfer.splitNodeId, tree, transfer.placeAfter)
    ensures Order(InsertTree(target, source, transfer).value)
         == Spliced(Order(target), transfer.targetPaneId, Beside(transfer.targetPaneId, Panes(tree), transfer.placeAfter))
  {
    var grown := InsertTree(target, source, transfer).value;
    var at, splitId := transfer.targetPaneId, transfer.splitNodeId;
    var split := SplitNode(splitId, if transfer.placeAfter then at else source.rootNodeId,
                           if transfer.placeAfter then source.rootNodeId else at, transfer.orientation);
    assert grown.nodes == RedirectAll(target.nodes, at, splitId) + source.nodes + [split];
    assert grown.rootNodeId == RedirectId(target.rootNodeId, at, splitId);
    hide InsertTree, ValidLayout, UniqueNodeIds;
    UniqueOfValid(grown);
    PartsOf(target.nodes, at, splitId, source.nodes, split);
    GrowsAlso(source.nodes, grown.nodes, tree);
    GraftGrows(target.nodes, grown.nodes, TreeOf(target), at, split, tree, transfer.placeAfter);
    IsTheTree(grown, Graft(TreeOf(target), at, splitId, tree, transfer.placeAfter));
    PanesGrafted(TreeOf(target), at, splitId, tree, transfer.placeAfter);
  }

  // ----- moving a pane inside its tab -----

  lemma {:induction false} ErasedMembers(nodes: seq<Node>, a: string, b: string)
    ensures forall node :: node in EraseNodes(nodes, a, b) ==> node in nodes && node.id != a && node.id != b
    ensures UniqueNodeIds(nodes) ==> UniqueNodeIds(EraseNodes(nodes, a, b))
  {
    if nodes == [] {
      return;
    }
    ErasedMembers(nodes[1..], a, b);
    var rest := EraseNodes(nodes[1..], a, b);
    if UniqueNodeIds(nodes) {
      assert forall i, j :: 0 <= i < j < |nodes[1..]| ==> nodes[1..][i] == nodes[i + 1] && nodes[1..][j] == nodes[j + 1];
      forall node | node in rest
        ensures node.id != nodes[0].id
      {
        var j :| 0 <= j < |nodes[1..]| && nodes[1..][j] == node;
        assert nodes[j + 1] == node;
      }
    }
  }

  /** The node list once a split is spliced out, erased together with `a`. */
  function Spare(nodes: seq<Node>, a: string, parentId: string, siblingId: string): seq<Node> {
    EraseNodes(RedirectAll(nodes, parentId, siblingId), a, parentId)
  }

  /** Without its parent, the rest grows the pruned tree, whether or not the pane itself stays in the list. */
  lemma {:induction false} SpareGrows(nodes: seq<Node>, tree: Tree, a: string, pane: string, parent: Node, siblingId: string)
    requires SplitsInTree(nodes, tree) && IsLeaf(nodes, pane) && pane != tree.id && parent.id != "" && (a == pane || a == parent.id)
    requires IsParent(nodes, parent, pane, siblingId) && OnlyBelow(tree, pane, parent.id) && Forks(tree, parent.id, pane)
    ensures SplitsInTree(Spare(nodes, a, parent.id, siblingId), Prune(tree, pane))
    ensures Prune(tree, pane).id == RedirectId(tree.id, parent.id, siblingId)
    ensures Elements(Ids(Prune(tree, pane))) == Elements(Ids(tree)) - {pane, parent.id}
    ensures forall id :: id != a && IsLeaf(nodes, id) ==> IsLeaf(Spare(nodes, a, parent.id, siblingId), id)
  {
    var spare := Spare(nodes, a, parent.id, siblingId);
    hide Distinct, OnlyBelow, Forks, Elements, EraseNodes;
    assert Grows(nodes, tree) && Distinct(Ids(tree)) && UniqueNodeIds(nodes);
    PrunedIds(nodes, tree, pane, parent.id);
    SpareMembers(nodes, tree, a, pane, parent, siblingId);
    hide SplitsInTree, IsLeaf;
    ErasedIsRedirected(nodes, a, parent.id, siblingId);
    hide Spare;
    assert Redirected(nodes, spare, {pane, parent.id}, parent.id, siblingId);
    PruneGrows(nodes, spare, tree, pane, parent, siblingId);
    forall id | IsLeaf(nodes, id) && id != a
      ensures IsLeaf(spare, id)
    {
      LeafStays(nodes, spare, a, parent, siblingId, id);
    }
    assert SplitsInTree(spare, Prune(tree, pane));
  }

  /** Where a node of the spare list comes from. */
  lemma {:induction false} SpareOrigin(nodes: seq<Node>, a: string, parentId: string, siblingId: string, k: nat) returns (j: nat)
    requires k < |Spare(nodes, a, parentId, siblingId)|
    ensures j < |nodes| && nodes[j].id != a && nodes[j].id != parentId
    ensures Spare(nodes, a, parentId, siblingId)[k] == Redirect(nodes[j], parentId, siblingId)
  {
    var replaced := RedirectAll(nodes, parentId, siblingId);
    var spare := Spare(nodes, a, parentId, siblingId);
    ErasedMembers(replaced, a, parentId);
    assert spare[k] in replaced;
    j :| 0 <= j < |replaced| && replaced[j] == spare[k];
  }

  lemma {:induction false} SpareMembers(nodes: seq<Node>, tree: Tree, a: string, pane: string, parent: Node, siblingId: string)
    requires SplitsInTree(nodes, tree) && IsLeaf(nodes, pane) && parent.id != ""
    ensures var spare := Spare(nodes, a, parent.id, siblingId);
      && UniqueNodeIds(spare)
      && forall k :: 0 <= k < |spare| ==>
           if spare[k].kind.Split? then spare[k].id in Elements(Ids(tree)) - {pane, parent.id}
           else spare[k].firstChildId == "" && spare[k].secondChildId == ""
  {
    hide Elements, Grows, Distinct;
    var spare := Spare(nodes, a, parent.id, siblingId);
    UniqueRedirected(nodes, parent.id, siblingId);
    ErasedMembers(RedirectAll(nodes, parent.id, siblingId), a, parent.id);
    hide Spare;
    forall k | 0 <= k < |spare|
      ensures if spare[k].kind.Split? then spare[k].id in Elements(Ids(tree)) - {pane, parent.id}
              else spare[k].firstChildId == "" && spare[k].secondChildId == ""
    {
      var j := SpareOrigin(nodes, a, parent.id, siblingId, k);
      LookupMember(nodes, j);
    }
  }

  lemma {:induction false} UniqueRedirected(nodes: seq<Node>, id: string, newId: string)
    requires UniqueNodeIds(nodes)
    ensures UniqueNodeIds(RedirectAll(nodes, id, newId))
  {
  }

  lemma {:induction false} LeafStays(before: seq<Node>, after: seq<Node>, a: string, parent: Node, siblingId: string, id: string)
    requires Redirected(before, after, {a, parent.id}, parent.id, siblingId)
    requires IsLeaf(before, id) && id != a && Lookup(before, parent.id) == Some(parent) && parent.kind.Split?
    ensures IsLeaf(after, id)
  {
    var k := FindNode(before, id);
    assert before[k].id != parent.id;
  }

  /** Splitting a leaf off its place and appending the split grafts the tree. */
  lemma {:induction false} AttachGrafts(layout: Layout, tree: Tree, at: string, split: Node, other: Tree, placeAfter: bool)
    requires SplitsInTree(layout.nodes, tree) && tree.id == layout.rootNodeId && at != "" && at in Elements(Ids(tree)) && IsLeaf(layout.nodes, at)
    requires Grows(layout.nodes, other) && other.Tip? && split.kind.Split?
    requires split.firstChildId == (if placeAfter then at else other.id) && split.secondChildId == if placeAfter then other.id else at
    requires UniqueNodeIds(AttachSplit(layout, at, split).nodes)
    ensures var attached := AttachSplit(layout, at, split);
      var grafted := Graft(tree, at, split.id, other, placeAfter);
      Grows(attached.nodes, grafted) && grafted.id == attached.rootNodeId
  {
    hide Elements, Distinct, SplitsInTree, AttachSplit, UniqueNodeIds, Promote, FindNode, RedirectAll;
    InTreeGrows(layout.nodes, tree);
    PromoteReplaces(layout, tree, at, split.id);
    AttachPromotes(layout, at, split);
    var attached := AttachSplit(layout, at, split);
    assert attached.nodes == RedirectAll(layout.nodes, at, split.id) + [] + [split];
    assert attached.rootNodeId == RedirectId(layout.rootNodeId, at, split.id);
    PartsOf(layout.nodes, at, split.id, [], split);
    assert layout.nodes[FindNode(layout.nodes, other.id)].id == other.id;
    GraftGrows(layout.nodes, attached.nodes, tree, at, split, other, placeAfter);
  }

  lemma {:induction false} InTreeGrows(nodes: seq<Node>, tree: Tree)
    requires SplitsInTree(nodes, tree)
    ensures Grows(nodes, tree) && Distinct(Ids(tree)) && UniqueNodeIds(nodes)
  {
  }

  lemma {:induction false} AttachPromotes(layout: Layout, at: string, split: Node)
    ensures var promoted := Promote(layout, at, split.id);
      var attached := AttachSplit(layout, at, split);
      attached.nodes == promoted.nodes + [split] && attached.rootNodeId == promoted.rootNodeId
  {
  }

  /** Two leaves under one split are neighbours. */
  lemma {:induction false} Neighbours(nodes: seq<Node>, tree: Tree, parent: Node) returns (left: seq<string>, right: seq<string>)
    requires Grows(nodes, tree) && Lookup(nodes, parent.id) == Some(parent) && parent.kind.Split?
    requires parent.id in Elements(Ids(tree)) && IsLeaf(nodes, parent.firstChildId) && IsLeaf(nodes, parent.secondChildId)
    ensures Panes(tree) == left + [parent.firstChildId, parent.secondChildId] + right
  {
    hide FindNode, Elements;
    if tree.id == parent.id {
      left, right := [], [];
    } else if tree.Tip? {
      TipIds(tree.id);
      left, right := [], [];
    } else {
      ElementsOfFork(tree.id, tree.first, tree.second);
      var pair := [parent.firstChildId, parent.secondChildId];
      if parent.id in Elements(Ids(tree.first)) {
        left, right := Neighbours(nodes, tree.first, parent);
        assert left + pair + right + Panes(tree.second) == left + pair + (right + Panes(tree.second));
        right := right + Panes(tree.second);
      } else {
        left, right := Neighbours(nodes, tree.second, parent);
        assert Panes(tree.first) + (left + pair + right) == (Panes(tree.first) + left) + pair + right;
        left := Panes(tree.first) + left;
      }
    }
  }

  lemma {:induction false} DistinctPanes(tree: Tree)
    requires Distinct(Ids(tree))
    ensures Distinct(Panes(tree))
  {
    if tree.Fork? {
      DistinctFork(tree.id, tree.first, tree.second);
      PanesAmongIds(tree.first);
      PanesAmongIds(tree.second);
      hide Distinct;
      DistinctPanes(tree.first);
      DistinctPanes(tree.second);
      DistinctAppend(Panes(tree.first), Panes(tree.second));
    }
  }

  lemma {:induction false} PairApart(left: seq<string>, pair: seq<string>, right: seq<string>)
    requires |pair| == 2 && Distinct(pair) && Elements(left) !! Elements(pair) && Elements(left) + Elements(pair) !! Elements(right)
    ensures pair[0] != pair[1] && pair[0] !in left && pair[1] !in left && pair[0] !in right && pair[1] !in right
  {
    assert pair[0] in Elements(pair) && pair[1] in Elements(pair);
  }

  /** Taking out one of two neighbours and putting it back on the same side changes nothing. */
  lemma {:induction false} BackInPlace(left: seq<string>, right: seq<string>, at: string, x: string, placeAfter: bool)
    requires Distinct(left + Beside(at, [x], placeAfter) + right)
    ensures var all := left + Beside(at, [x], placeAfter) + right;
      Spliced(Without(all, x), at, Beside(at, [x], placeAfter)) == all
  {
    hide Distinct, Elements;
    var pair := Beside(at, [x], placeAfter);
    DistinctAppend(left + pair, right);
    DistinctAppend(left, pair);
    ElementsAppend(left, pair);
    PairApart(left, pair, right);
    WithoutAppend(left + pair, right, x);
    WithoutAppend(left, pair, x);
    WithoutNothing(left, x);
    WithoutNothing(right, x);
    assert Without(pair, x) == [at] by {
      assert Without([x], x) == [] && Without([at], x) == [at];
      WithoutAppend(if placeAfter then [at] else [x], if placeAfter then [x] else [at], x);
    }
    SplicedAppend(left + [at], right, at, pair);
    SplicedAppend(left, [at], at, pair);
    SplicedNothing(left, at, pair);
    SplicedNothing(right, at, pair);
    assert Spliced([at], at, pair) == pair + [] == pair;
  }

  /**
   Moving a pane takes it out of the order and puts it beside the target, also where the code
   recognises that the pane is there already and leaves the layout as it is.
   */
  lemma {:induction false} MoveRearrangesOrder(layout: Layout, pane: string, target: string, splitId: string,
                                               orientation: Orientation, placeAfter: bool)
    requires MoveTerminalPane(layout, pane, target, splitId, orientation, placeAfter).Some?
    ensures ValidLayout(layout) && ValidLayout(MoveTerminalPane(layout, pane, target, splitId, orientation, placeAfter).value)
    ensures Order(MoveTerminalPane(layout, pane, target, splitId, orientation, placeAfter).value)
         == Spliced(Without(Order(layout), pane), target, Beside(target, [pane], placeAfter))
  {
    var parent := layout.nodes[FindParent(layout.nodes, pane)];
    var siblingId := if parent.firstChildId == pane then parent.secondChildId else parent.firstChildId;
    if siblingId == target && parent.orientation == orientation && (parent.secondChildId == pane) == placeAfter {
      assert MoveTerminalPane(layout, pane, target, splitId, orientation, placeAfter).value == layout;
      MovedNowhere(layout, pane, target, placeAfter);
    } else {
      MovedElsewhere(layout, pane, target, splitId, orientation, placeAfter);
    }
  }

  lemma {:induction false} MovedNowhere(layout: Layout, pane: string, target: string, placeAfter: bool)
    requires ValidLayout(layout) && IsLeaf(layout.nodes, pane) && IsLeaf(layout.nodes, target) && pane != target
    requires FindParent(layout.nodes, pane) < |layout.nodes|
    requires var parent := layout.nodes[FindParent(layout.nodes, pane)];
      && target == (if parent.firstChildId == pane then parent.secondChildId else parent.firstChildId)
      && (parent.secondChildId == pane) == placeAfter
    ensures Spliced(Without(Order(layout), pane), target, Beside(target, [pane], placeAfter)) == Order(layout)
  {
    hide ValidLayout, Distinct, Elements, OnlyBelow, FindNode, Grows, Forks, FindParent, Panes, Without, Spliced, Promote, ReplaceChild;
    var tree := TreeOf(layout);
    var parent := layout.nodes[FindParent(layout.nodes, pane)];
    ParentFound(layout, pane);
    ForksAmongIds(tree, parent.id, pane);
    var left, right := Neighbours(layout.nodes, tree, parent);
    DistinctPanes(tree);
    assert [parent.firstChildId, parent.secondChildId] == Beside(target, [pane], placeAfter);
    BackInPlace(left, right, target, pane, placeAfter);
  }

  /** What the move builds when the pane is not there already. */
  lemma {:induction false} MovedIs(layout: Layout, pane: string, target: string, splitId: string, orientation: Orientation, placeAfter: bool)
    requires MoveTerminalPane(layout, pane, target, splitId, orientation, placeAfter).Some?
    requires var parent := layout.nodes[FindParent(layout.nodes, pane)];
      var siblingId := if parent.firstChildId == pane then parent.secondChildId else parent.firstChildId;
      !(siblingId == target && parent.orientation == orientation && (parent.secondChildId == pane) == placeAfter)
    ensures var parent := layout.nodes[FindParent(layout.nodes, pane)];
      var siblingId := if parent.firstChildId == pane then parent.secondChildId else parent.firstChildId;
      var split := SplitNode(splitId, if placeAfter then target else pane, if placeAfter then pane else target, orientation);
      var promoted := Promote(layout, parent.id, siblingId);
      var moved := MoveTerminalPane(layout, pane, target, splitId, orientation, placeAfter).value;
      && ValidLayout(layout) && ValidLayout(moved)
      && IsLeaf(layout.nodes, pane) && IsLeaf(layout.nodes, target) && pane != target && FindParent(layout.nodes, pane) < |layout.nodes|
      && moved == AttachSplit(promoted.(nodes := EraseNodes(promoted.nodes, parent.id, parent.id)), target, split).(activePaneId := pane)
  {
    hide ValidLayout, AttachSplit, Promote, EraseNodes, FindNode;
  }

  lemma {:induction false} LeafInTree(layout: Layout, id: string)
    requires ValidLayout(layout) && IsLeaf(layout.nodes, id)
    ensures id != "" && id in Elements(Ids(TreeOf(layout)))
  {
    ValidSplitsInTree(layout);
    hide ValidLayout;
    assert layout.nodes[FindNode(layout.nodes, id)].id == id;
  }

  lemma {:induction false} MovedElsewhere(layout: Layout, pane: string, target: string, splitId: string,
                                          orientation: Orientation, placeAfter: bool)
    requires MoveTerminalPane(layout, pane, target, splitId, orientation, placeAfter).Some?
    requires var parent := layout.nodes[FindParent(layout.nodes, pane)];
      var siblingId := if parent.firstChildId == pane then parent.secondChildId else parent.firstChildId;
      !(siblingId == target && parent.orientation == orientation && (parent.secondChildId == pane) == placeAfter)
    ensures ValidLayout(layout) && ValidLayout(MoveTerminalPane(layout, pane, target, splitId, orientation, placeAfter).value)
    ensures Order(MoveTerminalPane(layout, pane, target, splitId, orientation, placeAfter).value)
         == Spliced(Without(Order(layout), pane), target, Beside(target, [pane], placeAfter))
  {
    hide ValidLayout, MoveTerminalPane, Promote, AttachSplit, Distinct, Elements, OnlyBelow, Forks, SplitsInTree, EraseNodes, FindNode, Grows;
    hide Prune, Graft, Spliced, Without, Beside;
    MovedIs(layout, pane, target, splitId, orientation, placeAfter);
    ParentFound(layout, pane);
    var tree := TreeOf(layout);
    var pruned := Prune(tree, pane);
    var parent := layout.nodes[FindParent(layout.nodes, pane)];
    var siblingId := if parent.firstChildId == pane then parent.secondChildId else parent.firstChildId;
    var split := SplitNode(splitId, if placeAfter then target else pane, if placeAfter then pane else target, orientation);
    var moved := MoveTerminalPane(layout, pane, target, splitId, orientation, placeAfter).value;
    DissolvedTree(layout, pane, target);
    UniqueOfValid(moved);
    var promoted := Promote(layout, parent.id, siblingId);
    var dissolved := promoted.(nodes := EraseNodes(promoted.nodes, parent.id, parent.id));
    AttachGrafts(dissolved, pruned, target, split, Tip(pane), placeAfter);
    IsTheTree(moved, Graft(pruned, target, splitId, Tip(pane), placeAfter));
    PanesGrafted(pruned, target, splitId, Tip(pane), placeAfter);
    PanesPruned(tree, pane);
  }

  lemma {:induction false} LeafIsNoParent(nodes: seq<Node>, parent: Node, pane: string, siblingId: string, id: string)
    requires IsParent(nodes, parent, pane, siblingId) && IsLeaf(nodes, id)
    ensures id != parent.id
  {
  }

  /** The layout with the pane's parent spliced out, before the pane is hung up again. */
  lemma {:induction false} DissolvedTree(layout: Layout, pane: string, target: string)
    requires ValidLayout(layout) && IsLeaf(layout.nodes, pane) && IsLeaf(layout.nodes, target) && pane != target
    requires FindParent(layout.nodes, pane) < |layout.nodes|
    ensures var parent := layout.nodes[FindParent(layout.nodes, pane)];
      var siblingId := if parent.firstChildId == pane then parent.secondChildId else parent.firstChildId;
      var promoted := Promote(layout, parent.id, siblingId);
      var nodes := EraseNodes(promoted.nodes, parent.id, parent.id);
      var pruned := Prune(TreeOf(layout), pane);
      && SplitsInTree(nodes, pruned) && pruned.id == promoted.rootNodeId
      && target != "" && target in Elements(Ids(pruned)) && IsLeaf(nodes, target) && Grows(nodes, Tip(pane))
  {
    hide ValidLayout, Promote, Distinct, Elements, OnlyBelow, Forks, SplitsInTree, EraseNodes, FindNode, Grows, Prune;
    hide IsLeaf, IsParent, RedirectAll;
    ParentFound(layout, pane);
    ValidSplitsInTree(layout);
    LeafInTree(layout, target);
    var parent := layout.nodes[FindParent(layout.nodes, pane)];
    var siblingId := if parent.firstChildId == pane then parent.secondChildId else parent.firstChildId;
    LeafIsNoParent(layout.nodes, parent, pane, siblingId, target);
    LeafIsNoParent(layout.nodes, parent, pane, siblingId, pane);
    SpareGrows(layout.nodes, TreeOf(layout), parent.id, pane, parent, siblingId);
    LeafGrows(Spare(layout.nodes, parent.id, parent.id, siblingId), pane);
  }

  lemma {:induction false} LeafGrows(nodes: seq<Node>, id: string)
    requires IsLeaf(nodes, id)
    ensures Grows(nodes, Tip(id))
  {
  }

  // ----- swapping panes -----

  function Exchanging(a: string, b: string): string -> string {
    x => ExchangeId(x, a, b)
  }

  function Replacing(a: string, b: string): string -> string {
    x => RedirectId(x, a, b)
  }

  lemma {:induction false} ExchangedAt(nodes: seq<Node>, a: string, b: string, k: nat)
    requires k < |nodes|
    ensures ExchangeChildren(nodes, a, b)[k] == nodes[k].(firstChildId := ExchangeId(nodes[k].firstChildId, a, b),
                                                          secondChildId := ExchangeId(nodes[k].secondChildId, a, b))
  {
    if k > 0 {
      ExchangedAt(nodes[1..], a, b, k - 1);
    }
  }

  lemma {:induction false} ExchangeRenames(nodes: seq<Node>, a: string, b: string)
    requires UniqueNodeIds(nodes) && IsLeaf(nodes, a) && IsLeaf(nodes, b)
    ensures RenamedBy(nodes, ExchangeChildren(nodes, a, b), Exchanging(a, b))
  {
    hide UniqueNodeIds, IsLeaf, NodeRenamed;
    forall k | 0 <= k < |nodes|
      ensures NodeRenamed(nodes[k], ExchangeChildren(nodes, a, b), Exchanging(a, b))
    {
      ExchangeRenamesAt(nodes, a, b, k);
    }
  }

  lemma {:induction false} ExchangeRenamesAt(nodes: seq<Node>, a: string, b: string, k: nat)
    requires UniqueNodeIds(nodes) && IsLeaf(nodes, a) && IsLeaf(nodes, b) && k < |nodes|
    ensures NodeRenamed(nodes[k], ExchangeChildren(nodes, a, b), Exchanging(a, b))
  {
    hide ExchangeChildren;
    var after := ExchangeChildren(nodes, a, b);
    assert UniqueNodeIds(after) by {
      forall j | 0 <= j < |nodes|
        ensures after[j].id == nodes[j].id
      {
        ExchangedAt(nodes, a, b, j);
      }
    }
    var image := if nodes[k].id == a then FindNode(nodes, b) else if nodes[k].id == b then FindNode(nodes, a) else k;
    ExchangedAt(nodes, a, b, image);
    LookupMember(nodes, k);
    LookupMember(after, image);
  }

  /** A swap inside a tab that leaves it valid exchanges the two panes in the order. */
  lemma {:induction false} ExchangedOrder(layout: Layout, transfer: Transfer)
    requires ValidLayout(layout) && SwapInside(layout, transfer).Some? && ValidLayout(SwapInside(layout, transfer).value)
    ensures Order(SwapInside(layout, transfer).value) == Renamed(Order(layout), Exchanging(transfer.sourcePaneId, transfer.targetPaneId))
  {
    hide ValidLayout, Distinct;
    var tree, f := TreeOf(layout), Exchanging(transfer.sourcePaneId, transfer.targetPaneId);
    var swapped := SwapInside(layout, transfer).value;
    UniqueOfValid(layout);
    ExchangeRenames(layout.nodes, transfer.sourcePaneId, transfer.targetPaneId);
    RelabelGrows(layout.nodes, swapped.nodes, tree, f);
    LeafInTree(layout, transfer.sourcePaneId);
    LeafInTree(layout, transfer.targetPaneId);
    assert f(tree.id) == tree.id by {
      if tree.id == transfer.sourcePaneId || tree.id == transfer.targetPaneId {
        TipIds(tree.id);
      }
    }
    IsTheTree(swapped, Relabelled(tree, f));
    PanesRelabelled(tree, f);
  }

  lemma {:induction false} ReplacementRenames(nodes: seq<Node>, mine: nat, other: Node)
    requires mine < |nodes| && nodes[mine].kind.Leaf? && other.kind.Leaf? && UniqueNodeIds(nodes)
    requires UniqueNodeIds(RedirectAll(nodes[mine := other], nodes[mine].id, other.id))
    ensures RenamedBy(nodes, RedirectAll(nodes[mine := other], nodes[mine].id, other.id), Replacing(nodes[mine].id, other.id))
  {
    hide RedirectAll, FindNode;
    var f, after := Replacing(nodes[mine].id, other.id), RedirectAll(nodes[mine := other], nodes[mine].id, other.id);
    forall k | 0 <= k < |nodes|
      ensures NodeRenamed(nodes[k], after, f)
    {
      LookupMember(after, k);
      assert k != mine ==> nodes[k].id != nodes[mine].id;
      assert after[k] == Redirect(nodes[mine := other][k], nodes[mine].id, other.id);
    }
  }

  /** A pane put in the place of another takes its place in the order. */
  lemma {:induction false} SubstituteRenames(layout: Layout, mine: nat, other: Node, otherIntent: Intent, after: Layout)
    requires ValidLayout(layout) && ValidLayout(after) && mine < |layout.nodes| && layout.nodes[mine].kind.Leaf? && other.kind.Leaf?
    requires FindIntent(layout.restoreIntents, layout.nodes[mine].restoreIntentId) < |layout.restoreIntents|
    requires var substituted := Substitute(layout, mine, other, otherIntent);
      after.nodes == substituted.nodes && after.rootNodeId == substituted.rootNodeId
    ensures Order(after) == Renamed(Order(layout), Replacing(layout.nodes[mine].id, other.id))
  {
    hide ValidLayout, FindIntent, RenamedBy, UniqueNodeIds, FindNode;
    var tree, f := TreeOf(layout), Replacing(layout.nodes[mine].id, other.id);
    UniqueOfValid(layout);
    UniqueOfValid(after);
    ReplacementRenames(layout.nodes, mine, other);
    RelabelGrows(layout.nodes, after.nodes, tree, f);
    IsTheTree(after, Relabelled(tree, f));
    PanesRelabelled(tree, f);
  }
}
