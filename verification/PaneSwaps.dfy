/** When swaps of panes leave valid tabs. */
module PaneSwaps {
  import opened WorkspaceState
  import opened PaneTree
  import opened WorkspaceTransfer
  import opened PaneOrder
  import opened LayoutParts
  import opened PaneClosing
  import opened PaneAssembly

  // ----- renaming the leaves of a tree -----

  predicate ForksFixed(tree: Tree, f: string -> string) {
    tree.Fork? ==> f(tree.id) == tree.id && ForksFixed(tree.first, f) && ForksFixed(tree.second, f)
  }

  lemma {:induction false} RenamingFixesForks(before: seq<Node>, after: seq<Node>, tree: Tree, f: string -> string)
    requires Grows(before, tree) && RenamedBy(before, after, f)
    ensures ForksFixed(tree, f)
  {
    assert before[FindNode(before, tree.id)].id == tree.id;
    if tree.Fork? {
      assert NodeRenamed(before[FindNode(before, tree.id)], after, f);
      RenamingFixesForks(before, after, tree.first, f);
      RenamingFixesForks(before, after, tree.second, f);
    }
  }

  lemma {:induction false} IdsRelabelled(tree: Tree, f: string -> string)
    requires ForksFixed(tree, f)
    ensures Ids(Relabelled(tree, f)) == Renamed(Ids(tree), f)
  {
    if tree.Fork? {
      IdsRelabelled(tree.first, f);
      IdsRelabelled(tree.second, f);
      RenamedAppend([tree.id] + Ids(tree.first), Ids(tree.second), f);
      RenamedAppend([tree.id], Ids(tree.first), f);
      assert Renamed([tree.id], f) == [tree.id] + Renamed([], f) == [tree.id];
    }
  }

  predicate InjectiveOn(s: set<string>, f: string -> string) {
    forall x, y :: x in s && y in s && f(x) == f(y) ==> x == y
  }

  lemma {:induction false} RenamedMembers(s: seq<string>, f: string -> string)
    ensures Elements(Renamed(s, f)) == set x | x in s :: f(x)
    ensures Distinct(s) && InjectiveOn(Elements(s), f) ==> Distinct(Renamed(s, f))
  {
    if s == [] {
      return;
    }
    var rest := s[1..];
    assert s == [s[0]] + rest;
    RenamedMembers(rest, f);
    DistinctCons(s[0], rest);
    DistinctCons(f(s[0]), Renamed(rest, f));
    assert Renamed(s, f) == [f(s[0])] + Renamed(rest, f);
    hide Distinct, Renamed;
    assert Elements(s) == Elements(rest) + {s[0]};
    if InjectiveOn(Elements(s), f) && f(s[0]) in Elements(Renamed(rest, f)) {
      var x :| x in rest && f(x) == f(s[0]);
      assert x in Elements(rest) && s[0] in Elements(s) && x in Elements(s);
    }
  }

  // ----- swapping inside a tab -----

  lemma {:induction false} ExchangedParts(nodes: seq<Node>, a: string, b: string, ids: set<string>)
    ensures var all := ExchangeChildren(nodes, a, b);
      && NodeIds(all) == NodeIds(nodes) && LeafRefs(all) == LeafRefs(nodes) && (UniqueNodeIds(all) <==> UniqueNodeIds(nodes))
      && (AllFit(all, ids) <==> AllFit(nodes, ids))
  {
    var all := ExchangeChildren(nodes, a, b);
    forall k | 0 <= k < |nodes|
      ensures all[k] == nodes[k].(firstChildId := all[k].firstChildId, secondChildId := all[k].secondChildId)
    {
      ExchangedAt(nodes, a, b, k);
    }
    hide ExchangeChildren, BoundedText;
    forall k | 0 <= k < |nodes|
      ensures NodeFits(all[k], ids) <==> NodeFits(nodes[k], ids)
    {
    }
  }

  lemma {:induction false} ExchangeIsWhole(layout: Layout, a: string, b: string)
    requires ValidLayout(layout) && IsLeaf(layout.nodes, a) && IsLeaf(layout.nodes, b)
    ensures IsWhole(layout.(nodes := ExchangeChildren(layout.nodes, a, b)), Relabelled(TreeOf(layout), Exchanging(a, b)))
    ensures IsLeaf(ExchangeChildren(layout.nodes, a, b), a)
  {
    hide ValidLayout, Distinct, Elements, UniqueNodeIds, NodeIds, LeafRefs, AllFit, RefsMatched, FrameInOrder, FindNode;
    var tree, f, after := TreeOf(layout), Exchanging(a, b), ExchangeChildren(layout.nodes, a, b);
    var whole := Relabelled(tree, f);
    Disassembled(layout);
    UniqueOfValid(layout);
    InTreeGrows(layout.nodes, tree);
    LeafInTree(layout, a);
    LeafInTree(layout, b);
    ExchangedParts(layout.nodes, a, b, {});
    ExchangeRenames(layout.nodes, a, b);
    RenamingFixesForks(layout.nodes, after, tree, f);
    RelabelGrows(layout.nodes, after, tree, f);
    IdsRelabelled(tree, f);
    RenamedMembers(Ids(tree), f);
    ExchangeKeepsSet(Ids(tree), a, b);
    RootKept(layout.nodes, tree, a, b);
    ExchangedSplits(layout.nodes, tree, a, b, whole);
    LeafExchanged(layout.nodes, after, a, b);
  }

  lemma {:induction false} ExchangeKeepsSet(s: seq<string>, a: string, b: string)
    requires a in Elements(s) && b in Elements(s)
    ensures (set x | x in s :: Exchanging(a, b)(x)) == Elements(s)
    ensures InjectiveOn(Elements(s), Exchanging(a, b))
  {
    var f := Exchanging(a, b);
    forall x | x in Elements(s)
      ensures f(x) in s && f(f(x)) == x
    {
    }
    forall x | x in Elements(s)
      ensures x in set y | y in s :: f(y)
    {
      assert f(x) in s && f(f(x)) == x;
    }
  }

  /** Swapping does not touch the root. */
  lemma {:induction false} RootKept(nodes: seq<Node>, tree: Tree, a: string, b: string)
    requires Grows(nodes, tree) && IsLeaf(nodes, a) && IsLeaf(nodes, b) && a in Elements(Ids(tree)) && b in Elements(Ids(tree))
    ensures Exchanging(a, b)(tree.id) == tree.id
  {
    if tree.id == a || tree.id == b {
      TipIds(tree.id);
    }
  }

  lemma {:induction false} LeafExchanged(nodes: seq<Node>, after: seq<Node>, a: string, b: string)
    requires RenamedBy(nodes, after, Exchanging(a, b)) && IsLeaf(nodes, b)
    ensures IsLeaf(after, a)
  {
    var k := FindNode(nodes, b);
    assert nodes[k].id == b && Exchanging(a, b)(b) == a;
    assert NodeRenamed(nodes[k], after, Exchanging(a, b));
  }

  lemma {:induction false} ExchangedSplits(nodes: seq<Node>, tree: Tree, a: string, b: string, whole: Tree)
    requires SplitsInTree(nodes, tree) && a != "" && b != ""
    requires var all := ExchangeChildren(nodes, a, b);
      UniqueNodeIds(all) && Grows(all, whole) && Distinct(Ids(whole)) && NodeIds(all) == Elements(Ids(whole))
    ensures SplitsInTree(ExchangeChildren(nodes, a, b), whole)
  {
    hide Distinct, Elements, UniqueNodeIds, Grows;
    var all := ExchangeChildren(nodes, a, b);
    forall k | 0 <= k < |all|
      ensures all[k].id in Elements(Ids(whole))
      ensures all[k].kind.Leaf? ==> all[k].firstChildId == "" && all[k].secondChildId == ""
    {
      assert all[k].id in NodeIds(all);
      ExchangedAt(nodes, a, b, k);
    }
  }

  /** Swapping two panes of a valid tab leaves a valid tab. */
  lemma {:induction false} SwapInsideIsValid(layout: Layout, transfer: Transfer)
    requires ValidLayout(layout) && IsLeaf(layout.nodes, transfer.sourcePaneId) && IsLeaf(layout.nodes, transfer.targetPaneId)
    ensures SwapInside(layout, transfer).Some? && ValidLayout(SwapInside(layout, transfer).value)
  {
    hide ValidLayout, LeafRefs, AllFit, RefsMatched, NodeIds, UniqueNodeIds, ExchangeChildren, IsWhole, IsLeaf, BoundedText;
    var a, b := transfer.sourcePaneId, transfer.targetPaneId;
    Disassembled(layout);
    ExchangedParts(layout.nodes, a, b, IntentIds(layout.restoreIntents));
    ExchangeIsWhole(layout, a, b);
    var swapped := SwapInside(layout, transfer).value;
    WholeIgnoresFocus(layout.(nodes := ExchangeChildren(layout.nodes, a, b)), swapped, Relabelled(TreeOf(layout), Exchanging(a, b)));
    assert FrameInOrder(swapped);
    Assembled(swapped, Relabelled(TreeOf(layout), Exchanging(a, b)));
  }

  /** And the two panes have changed places in the order. */
  lemma {:induction false} SwapInsideExchanges(layout: Layout, transfer: Transfer)
    requires ValidLayout(layout) && IsLeaf(layout.nodes, transfer.sourcePaneId) && IsLeaf(layout.nodes, transfer.targetPaneId)
    ensures SwapInside(layout, transfer).Some? && ValidLayout(SwapInside(layout, transfer).value)
    ensures Order(SwapInside(layout, transfer).value) == Renamed(Order(layout), Exchanging(transfer.sourcePaneId, transfer.targetPaneId))
  {
    hide ValidLayout, SwapInside, Order;
    SwapInsideIsValid(layout, transfer);
    ExchangedOrder(layout, transfer);
  }

  lemma {:induction false} WholeIgnoresFocus(a: Layout, b: Layout, tree: Tree)
    requires IsWhole(a, tree) && a.nodes == b.nodes && a.rootNodeId == b.rootNodeId
    ensures IsWhole(b, tree)
  {
  }

  // ----- swapping across tabs -----

  /** The incoming pane and intent are not in the tab already, except in place of the outgoing ones. */
  predicate Admits(layout: Layout, mine: Node, other: Node) {
    && other.id !in NodeIds(layout.nodes) - {mine.id}
    && other.restoreIntentId !in IntentIds(layout.restoreIntents) - {mine.restoreIntentId}
  }

  lemma {:induction false} UpdatedParts(nodes: seq<Node>, mine: nat, other: Node)
    requires UniqueNodeIds(nodes) && mine < |nodes| && nodes[mine].kind.Leaf? && other.kind.Leaf?
    ensures var all := nodes[mine := other];
      && NodeIds(all) == NodeIds(nodes) - {nodes[mine].id} + {other.id}
      && (UniqueNodeIds(all) <==> other.id !in NodeIds(nodes) - {nodes[mine].id})
      && LeafRefs(all) == LeafRefs(nodes) - {(nodes[mine].id, nodes[mine].restoreIntentId)} + {(other.id, other.restoreIntentId)}
  {
    var a, b := nodes[..mine], nodes[mine + 1..];
    assert nodes == a + [nodes[mine]] + b && nodes[mine := other] == a + [other] + b;
    OneLeaf(nodes[mine]);
    OneLeaf(other);
    hide NodeIds, LeafRefs, UniqueNodeIds;
    NodeIdsAppend(a, [nodes[mine]]);
    NodeIdsAppend(a + [nodes[mine]], b);
    NodeIdsAppend(a, [other]);
    NodeIdsAppend(a + [other], b);
    RefsHaveIds(a);
    RefsHaveIds(b);
  }

  lemma {:induction false} RefsHaveIds(nodes: seq<Node>)
    ensures forall p :: p in LeafRefs(nodes) ==> p.0 in NodeIds(nodes)
  {
  }

  lemma {:induction false} OneLeaf(node: Node)
    requires node.kind.Leaf?
    ensures NodeIds([node]) == {node.id} && LeafRefs([node]) == {(node.id, node.restoreIntentId)} && UniqueNodeIds([node])
  {
    assert [node][0].id in NodeIds([node]);
    assert ([node][0].id, [node][0].restoreIntentId) in LeafRefs([node]);
  }

  lemma {:induction false} UpdatedIntents(intents: seq<Intent>, k: nat, other: Intent)
    requires UniqueIntentIds(intents) && k < |intents|
    ensures IntentIds(intents[k := other]) == IntentIds(intents) - {intents[k].id} + {other.id}
    ensures UniqueIntentIds(intents[k := other]) <==> other.id !in IntentIds(intents) - {intents[k].id}
  {
    var a, b := intents[..k], intents[k + 1..];
    assert intents == a + [intents[k]] + b && intents[k := other] == a + [other] + b;
    OneIntent(intents[k]);
    OneIntent(other);
    hide IntentIds, UniqueIntentIds;
    IntentIdsAppend(a, [intents[k]]);
    IntentIdsAppend(a + [intents[k]], b);
    IntentIdsAppend(a, [other]);
    IntentIdsAppend(a + [other], b);
  }

  lemma {:induction false} OneIntent(intent: Intent)
    ensures IntentIds([intent]) == {intent.id} && UniqueIntentIds([intent])
  {
    assert [intent][0].id in IntentIds([intent]);
  }

  lemma {:induction false} MatchedReplaced(refs: set<(string, string)>, ids: set<string>, mine: (string, string), other: (string, string))
    requires RefsMatched(refs, ids) && mine in refs && (forall p :: p in refs ==> p.1 in ids)
    requires other.1 !in ids - {mine.1}
    ensures RefsMatched(refs - {mine} + {other}, ids - {mine.1} + {other.1})
  {
    var after := refs - {mine} + {other};
    forall p, q | p in after && q in after && p.1 == q.1
      ensures p == q
    {
    }
    forall id | id in ids - {mine.1} + {other.1}
      ensures exists p :: p in after && p.1 == id
    {
      if id == other.1 {
        assert other in after;
      } else {
        var p :| p in refs && p.1 == id;
        assert p in after;
      }
    }
  }

  lemma {:induction false} ReplacingMovesSet(s: seq<string>, a: string, b: string)
    requires a in Elements(s) && b !in Elements(s) - {a}
    ensures (set x | x in s :: Replacing(a, b)(x)) == Elements(s) - {a} + {b}
    ensures InjectiveOn(Elements(s), Replacing(a, b))
  {
    var f := Replacing(a, b);
    forall x | x in Elements(s) - {a}
      ensures x in set y | y in s :: f(y)
    {
      assert f(x) == x;
    }
    assert f(a) == b;
    assert b in set y | y in s :: f(y);
  }

  lemma {:induction false} SubstitutedIsWhole(layout: Layout, mine: nat, other: Node)
    requires ValidLayout(layout) && mine < |layout.nodes| && layout.nodes[mine].kind.Leaf?
    requires other.kind.Leaf? && other.firstChildId == "" && other.secondChildId == "" && other.id !in NodeIds(layout.nodes) - {layout.nodes[mine].id}
    ensures var nodes := RedirectAll(layout.nodes[mine := other], layout.nodes[mine].id, other.id);
      var whole := Relabelled(TreeOf(layout), Replacing(layout.nodes[mine].id, other.id));
      && SplitsInTree(nodes, whole) && whole.id == RedirectId(layout.rootNodeId, layout.nodes[mine].id, other.id)
      && Elements(Ids(whole)) == NodeIds(nodes)
      && RenamedBy(layout.nodes, nodes, Replacing(layout.nodes[mine].id, other.id))
  {
    hide ValidLayout, Distinct, Elements, UniqueNodeIds, NodeIds, LeafRefs, AllFit, RefsMatched, FrameInOrder, FindNode, RedirectAll;
    var tree, f := TreeOf(layout), Replacing(layout.nodes[mine].id, other.id);
    var nodes := RedirectAll(layout.nodes[mine := other], layout.nodes[mine].id, other.id);
    var whole := Relabelled(tree, f);
    Disassembled(layout);
    UniqueOfValid(layout);
    InTreeGrows(layout.nodes, tree);
    NodeListed(layout.nodes, mine);
    UpdatedParts(layout.nodes, mine, other);
    RedirectedParts(layout.nodes[mine := other], layout.nodes[mine].id, other.id);
    ReplacementRenames(layout.nodes, mine, other);
    RenamingFixesForks(layout.nodes, nodes, tree, f);
    RelabelGrows(layout.nodes, nodes, tree, f);
    IdsRelabelled(tree, f);
    RenamedMembers(Ids(tree), f);
    ReplacingMovesSet(Ids(tree), layout.nodes[mine].id, other.id);
    ValidSplitsInTree(layout);
    SubstitutedSplits(layout.nodes, tree, mine, other, whole);
  }

  lemma {:induction false} NodeListed(nodes: seq<Node>, k: nat)
    requires k < |nodes|
    ensures nodes[k].id in NodeIds(nodes)
  {
  }

  lemma {:induction false} SubstitutedSplits(nodes: seq<Node>, tree: Tree, mine: nat, other: Node, whole: Tree)
    requires SplitsInTree(nodes, tree) && mine < |nodes| && nodes[mine].id != ""
    requires other.kind.Leaf? && other.firstChildId == "" && other.secondChildId == ""
    requires var all := RedirectAll(nodes[mine := other], nodes[mine].id, other.id);
      UniqueNodeIds(all) && Grows(all, whole) && Distinct(Ids(whole)) && NodeIds(all) == Elements(Ids(whole))
    ensures SplitsInTree(RedirectAll(nodes[mine := other], nodes[mine].id, other.id), whole)
  {
    hide Distinct, Elements, UniqueNodeIds, Grows;
    var updated := nodes[mine := other];
    var all := RedirectAll(updated, nodes[mine].id, other.id);
    forall k | 0 <= k < |all|
      ensures all[k].id in Elements(Ids(whole))
      ensures all[k].kind.Leaf? ==> all[k].firstChildId == "" && all[k].secondChildId == ""
    {
      assert all[k].id in NodeIds(all);
      assert all[k] == Redirect(updated[k], nodes[mine].id, other.id);
    }
  }

  /** A tab that takes another pane with its intent for one of its own stays valid exactly if it does not have them already. */
  lemma {:induction false} SubstituteIsValidExactly(layout: Layout, mine: nat, other: Node, otherIntent: Intent, active: string)
    requires ValidLayout(layout) && mine < |layout.nodes| && layout.nodes[mine].kind.Leaf?
    requires FindIntent(layout.restoreIntents, layout.nodes[mine].restoreIntentId) < |layout.restoreIntents|
    requires NodeFits(other, {otherIntent.id}) && other.kind.Leaf? && other.firstChildId == "" && other.secondChildId == "" && ValidIntent(otherIntent)
    ensures ValidLayout(Substitute(layout, mine, other, otherIntent).(activePaneId := active)) ==> Admits(layout, layout.nodes[mine], other)
    ensures Admits(layout, layout.nodes[mine], other) && IsLeaf(Substitute(layout, mine, other, otherIntent).nodes, active)
      ==> ValidLayout(Substitute(layout, mine, other, otherIntent).(activePaneId := active))
  {
    hide ValidLayout, RefsMatched, LeafRefs, IntentIds, UniqueIntentIds, NodeIds, BoundedText, RedirectAll, IsLeaf, ValidIntent, AllFit, FindIntent, UniqueNodeIds;
    var after := Substitute(layout, mine, other, otherIntent).(activePaneId := active);
    var own := layout.nodes[mine];
    var k := FindIntent(layout.restoreIntents, own.restoreIntentId);
    Disassembled(layout);
    UniqueOfValid(layout);
    UpdatedParts(layout.nodes, mine, other);
    RedirectedParts(layout.nodes[mine := other], own.id, other.id);
    UpdatedIntents(layout.restoreIntents, k, otherIntent);
    if ValidLayout(after) {
      Disassembled(after);
      UniqueOfValid(after);
    }
    if Admits(layout, own, other) && IsLeaf(after.nodes, active) {
      SubstitutedIsWhole(layout, mine, other);
      FitRefs(layout.nodes, IntentIds(layout.restoreIntents));
      RefListed(layout.nodes, mine);
      MatchedReplaced(LeafRefs(layout.nodes), IntentIds(layout.restoreIntents), (own.id, own.restoreIntentId), (other.id, other.restoreIntentId));
      SubstitutedFits(layout, mine, other, IntentIds(layout.restoreIntents));
      SubstitutedIntentsValid(layout.restoreIntents, k, otherIntent);
      assert FrameInOrder(after);
      Assembled(after, Relabelled(TreeOf(layout), Replacing(own.id, other.id)));
    }
  }

  /** The renamed focus is a leaf of the renamed list. */
  lemma {:induction false} LeafRenamed(before: seq<Node>, after: seq<Node>, f: string -> string, id: string)
    requires RenamedBy(before, after, f) && IsLeaf(before, id)
    ensures IsLeaf(after, f(id))
  {
    var k := FindNode(before, id);
    assert before[k].id == id && NodeRenamed(before[k], after, f);
  }

  lemma {:induction false} RefListed(nodes: seq<Node>, k: nat)
    requires k < |nodes| && nodes[k].kind.Leaf?
    ensures (nodes[k].id, nodes[k].restoreIntentId) in LeafRefs(nodes)
  {
  }

  lemma {:induction false} SubstitutedIntentsValid(intents: seq<Intent>, k: nat, other: Intent)
    requires k < |intents| && ValidIntent(other) && forall j :: 0 <= j < |intents| ==> ValidIntent(intents[j])
    ensures var all := intents[k := other];
      forall j :: 0 <= j < |all| ==> ValidIntent(all[j])
  {
    hide ValidIntent;
  }

  lemma {:induction false} SubstitutedFits(layout: Layout, mine: nat, other: Node, ids: set<string>)
    requires mine < |layout.nodes| && layout.nodes[mine].kind.Leaf? && AllFit(layout.nodes, ids) && RefsMatched(LeafRefs(layout.nodes), ids)
    requires UniqueNodeIds(layout.nodes) && NodeFits(other, {other.restoreIntentId}) && other.kind.Leaf?
    ensures AllFit(RedirectAll(layout.nodes[mine := other], layout.nodes[mine].id, other.id),
                   ids - {layout.nodes[mine].restoreIntentId} + {other.restoreIntentId})
  {
    hide BoundedText;
    var own := layout.nodes[mine];
    var updated := layout.nodes[mine := other];
    var after := ids - {own.restoreIntentId} + {other.restoreIntentId};
    RefListed(layout.nodes, mine);
    forall k | 0 <= k < |updated|
      ensures NodeFits(updated[k], after)
    {
      if k != mine {
        assert NodeFits(layout.nodes[k], ids);
        if updated[k].kind.Leaf? {
          RefListed(layout.nodes, k);
          assert layout.nodes[k].id != own.id;
          assert (layout.nodes[k].id, layout.nodes[k].restoreIntentId) != (own.id, own.restoreIntentId);
        }
      }
    }
    assert AllFit(updated, after);
    RedirectedParts(updated, own.id, other.id);
  }
}
