/**
 Tab order.  One global list holds the tabs of all windows interleaved; a window shows its own
 tabs in the order in which they occur there.  Two operations reorder tabs: dragging inside a
 window writes the rotated tabs back into the window's slots, while inserting erases the tab
 and puts it in front of the tab that now has the target index.
 */
module TabOrder {
  import opened Lists
  import opened WorkspaceState

  /** The ids of the tabs, in order. */
  function TabIds(layouts: seq<Layout>): (ids: seq<string>)
    ensures |ids| == |layouts|
    ensures forall k :: 0 <= k < |layouts| ==> ids[k] == layouts[k].id
  {
    if layouts == [] then [] else [layouts[0].id] + TabIds(layouts[1..])
  }

  /** The tabs that window `w` shows, in order. */
  function InWindow(layouts: seq<Layout>, w: string): seq<Layout> {
    if layouts == [] then []
    else (if layouts[0].windowId == w then [layouts[0]] else []) + InWindow(layouts[1..], w)
  }

  /** The slots of window `w` are filled with `tabs` in order; everything else stays where it is. */
  function WriteBack(layouts: seq<Layout>, w: string, tabs: seq<Layout>): (r: seq<Layout>)
    requires |tabs| == |InWindow(layouts, w)|
    ensures |r| == |layouts|
  {
    if layouts == [] then []
    else if layouts[0].windowId == w then [tabs[0]] + WriteBack(layouts[1..], w, tabs[1..])
    else [layouts[0]] + WriteBack(layouts[1..], w, tabs)
  }

  /** `std::rotate`: the element at `middle` becomes the one at `first`. */
  function Rotate<T>(s: seq<T>, first: nat, middle: nat, last: nat): seq<T>
    requires first <= middle <= last <= |s|
  {
    s[..first] + s[middle..last] + s[first..middle] + s[last..]
  }

  /** Taking an element out and putting it back at index `to`. */
  function MoveItem<T>(s: seq<T>, from: nat, to: nat): seq<T>
    requires from < |s| && to < |s|
  {
    InsertAt(RemoveAt(s, from), to, s[from])
  }

  /** Index of the tab that has rank `t` in window `w`; the length of the list if there is none. */
  function NthInWindow(layouts: seq<Layout>, w: string, t: nat): (k: nat)
    ensures k <= |layouts|
  {
    if layouts == [] then 0
    else if layouts[0].windowId != w then 1 + NthInWindow(layouts[1..], w, t)
    else if t == 0 then 0
    else 1 + NthInWindow(layouts[1..], w, t - 1)
  }

  /** The rank of the tab at index `k` in its window. */
  function RankOf(layouts: seq<Layout>, k: nat): nat
    requires k < |layouts|
  {
    |InWindow(layouts[..k], layouts[k].windowId)|
  }

  /** Moving the tab at `k` to rank `t` of its own window. */
  function MovedWithin(layouts: seq<Layout>, k: nat, t: nat): seq<Layout>
    requires k < |layouts| && t < |InWindow(layouts, layouts[k].windowId)|
  {
    var w := layouts[k].windowId;
    RankInRange(layouts, k);
    WriteBack(layouts, w, MoveItem(InWindow(layouts, w), RankOf(layouts, k), t))
  }

  /** Erasing the tab at `k` and inserting `moved` in front of rank `t` of its window. */
  function Reinserted(layouts: seq<Layout>, k: nat, moved: Layout, t: nat): seq<Layout>
    requires k < |layouts|
  {
    var rest := RemoveAt(layouts, k);
    InsertAt(rest, NthInWindow(rest, moved.windowId, t), moved)
  }

  // ----- filters and list surgery -----

  lemma {:induction false} InWindowAppend(a: seq<Layout>, b: seq<Layout>, w: string)
    ensures InWindow(a + b, w) == InWindow(a, w) + InWindow(b, w)
  {
    hide InWindow;
    if a == [] {
      InWindowNone(w);
      assert a + b == b;
      return;
    }
    assert a == [a[0]] + a[1..] && a + b == [a[0]] + (a[1..] + b);
    InWindowCons(a[0], a[1..], w);
    InWindowCons(a[0], a[1..] + b, w);
    InWindowAppend(a[1..], b, w);
  }

  lemma {:induction false} InWindowNone(w: string)
    ensures InWindow([], w) == []
  {
  }

  lemma {:induction false} InWindowCons(layout: Layout, rest: seq<Layout>, w: string)
    ensures InWindow([layout] + rest, w) == (if layout.windowId == w then [layout] else []) + InWindow(rest, w)
  {
    assert ([layout] + rest)[1..] == rest;
  }

  lemma {:induction false} InWindowOne(layout: Layout, w: string)
    ensures InWindow([layout], w) == if layout.windowId == w then [layout] else []
  {
    assert InWindow([layout][1..], w) == [];
  }

  lemma {:induction false} InWindowAround(layouts: seq<Layout>, k: nat, w: string)
    requires k < |layouts|
    ensures InWindow(layouts, w)
         == InWindow(layouts[..k], w) + (if layouts[k].windowId == w then [layouts[k]] else []) + InWindow(layouts[k + 1..], w)
  {
    InWindowAppend(layouts[..k], [layouts[k]] + layouts[k + 1..], w);
    InWindowAppend([layouts[k]], layouts[k + 1..], w);
    InWindowOne(layouts[k], w);
    assert layouts[..k] + ([layouts[k]] + layouts[k + 1..]) == layouts;
  }

  lemma {:induction false} RankInRange(layouts: seq<Layout>, k: nat)
    requires k < |layouts|
    ensures var tabs := InWindow(layouts, layouts[k].windowId);
      RankOf(layouts, k) < |tabs| && tabs[RankOf(layouts, k)] == layouts[k]
  {
    InWindowAround(layouts, k, layouts[k].windowId);
  }

  lemma {:induction false} InWindowRemove(layouts: seq<Layout>, k: nat, w: string)
    requires k < |layouts|
    ensures layouts[k].windowId == w ==>
      RankOf(layouts, k) < |InWindow(layouts, w)| && InWindow(RemoveAt(layouts, k), w) == RemoveAt(InWindow(layouts, w), RankOf(layouts, k))
    ensures layouts[k].windowId != w ==> InWindow(RemoveAt(layouts, k), w) == InWindow(layouts, w)
  {
    InWindowAround(layouts, k, w);
    InWindowAppend(layouts[..k], layouts[k + 1..], w);
    var a, b := InWindow(layouts[..k], w), InWindow(layouts[k + 1..], w);
    var after := RemoveAt(layouts, k);
    assert InWindow(after, w) == a + b;
    assert a + [] + b == a + b;
    hide RemoveAt, InWindow;
    if layouts[k].windowId == w {
      RemoveBetween(a, layouts[k], b);
    }
  }

  /** Inserting in front of rank `t` gives the window's new tab rank `t`, or the last rank if there are fewer tabs. */
  lemma {:induction false} InWindowInsert(layouts: seq<Layout>, moved: Layout, t: nat)
    ensures var w := moved.windowId;
      var tabs := InWindow(layouts, w);
      InWindow(InsertAt(layouts, NthInWindow(layouts, w, t), moved), w)
        == InsertAt(tabs, if t < |tabs| then t else |tabs|, moved)
  {
    var w := moved.windowId;
    var k := NthInWindow(layouts, w, t);
    NthSplits(layouts, w, t);
    InWindowAppend(layouts[..k] + [moved], layouts[k..], w);
    InWindowAppend(layouts[..k], [moved], w);
    InWindowOne(moved, w);
    InWindowAppend(layouts[..k], layouts[k..], w);
    assert layouts[..k] + layouts[k..] == layouts;
    InsertBetween(InWindow(layouts[..k], w), InWindow(layouts[k..], w), moved);
  }

  lemma {:induction false} NthSplits(layouts: seq<Layout>, w: string, t: nat)
    ensures var k := NthInWindow(layouts, w, t);
      |InWindow(layouts[..k], w)| == if t < |InWindow(layouts, w)| then t else |InWindow(layouts, w)|
  {
    if layouts != [] {
      var k := NthInWindow(layouts, w, t);
      if layouts[0].windowId != w {
        NthSplits(layouts[1..], w, t);
        assert layouts[..k][1..] == layouts[1..][..k - 1];
      } else if t > 0 {
        NthSplits(layouts[1..], w, t - 1);
        assert layouts[..k][1..] == layouts[1..][..k - 1];
      }
    }
  }

  lemma {:induction false} InWindowInsertOther(layouts: seq<Layout>, moved: Layout, k: nat, v: string)
    requires k <= |layouts| && v != moved.windowId
    ensures InWindow(InsertAt(layouts, k, moved), v) == InWindow(layouts, v)
  {
    InWindowAppend(layouts[..k] + [moved], layouts[k..], v);
    InWindowAppend(layouts[..k], [moved], v);
    InWindowOne(moved, v);
    InWindowAppend(layouts[..k], layouts[k..], v);
    assert layouts[..k] + layouts[k..] == layouts;
  }

  // ----- writing back into the slots of a window -----

  ghost predicate AllIn(tabs: seq<Layout>, w: string) {
    forall k :: 0 <= k < |tabs| ==> tabs[k].windowId == w
  }

  lemma {:induction false} InWindowAllIn(layouts: seq<Layout>, w: string)
    ensures AllIn(InWindow(layouts, w), w)
  {
    if layouts != [] {
      InWindowAllIn(layouts[1..], w);
    }
  }

  lemma {:induction false} WriteBackInWindow(layouts: seq<Layout>, w: string, tabs: seq<Layout>, v: string)
    requires |tabs| == |InWindow(layouts, w)| && AllIn(tabs, w)
    ensures InWindow(WriteBack(layouts, w, tabs), v) == if v == w then tabs else InWindow(layouts, v)
  {
    if layouts != [] {
      var rest := if layouts[0].windowId == w then tabs[1..] else tabs;
      var head := if layouts[0].windowId == w then tabs[0] else layouts[0];
      WriteBackInWindow(layouts[1..], w, rest, v);
      assert WriteBack(layouts, w, tabs) == [head] + WriteBack(layouts[1..], w, rest);
      assert ([head] + WriteBack(layouts[1..], w, rest))[1..] == WriteBack(layouts[1..], w, rest);
    }
  }

  /** Tabs of other windows keep their global positions, and the window's slots stay its slots. */
  lemma {:induction false} WriteBackKeepsSlots(layouts: seq<Layout>, w: string, tabs: seq<Layout>, k: nat)
    requires |tabs| == |InWindow(layouts, w)| && AllIn(tabs, w) && k < |layouts|
    ensures layouts[k].windowId != w ==> WriteBack(layouts, w, tabs)[k] == layouts[k]
    ensures WriteBack(layouts, w, tabs)[k].windowId == layouts[k].windowId
  {
    if k > 0 {
      var rest := if layouts[0].windowId == w then tabs[1..] else tabs;
      WriteBackKeepsSlots(layouts[1..], w, rest, k - 1);
    }
  }

  lemma {:induction false} WriteBackTwice(layouts: seq<Layout>, w: string, tabs: seq<Layout>, later: seq<Layout>)
    requires |tabs| == |later| == |InWindow(layouts, w)| && AllIn(tabs, w)
    requires |InWindow(WriteBack(layouts, w, tabs), w)| == |later|
    ensures WriteBack(WriteBack(layouts, w, tabs), w, later) == WriteBack(layouts, w, later)
  {
    if layouts != [] {
      var own := layouts[0].windowId == w;
      var rest := if own then tabs[1..] else tabs;
      var restLater := if own then later[1..] else later;
      var tail := WriteBack(layouts[1..], w, rest);
      WriteBackInWindow(layouts[1..], w, rest, w);
      WriteBackTwice(layouts[1..], w, rest, restLater);
      assert WriteBack(layouts, w, tabs)[1..] == tail;
    }
  }

  lemma {:induction false} WriteBackSame(layouts: seq<Layout>, w: string)
    ensures WriteBack(layouts, w, InWindow(layouts, w)) == layouts
  {
    if layouts != [] {
      var tail := InWindow(layouts[1..], w);
      WriteBackSame(layouts[1..], w);
      assert ([layouts[0]] + tail)[1..] == tail;
      assert InWindow(layouts, w) == if layouts[0].windowId == w then [layouts[0]] + tail else tail;
    }
  }

  lemma {:induction false} WriteBackMultiset(layouts: seq<Layout>, w: string, tabs: seq<Layout>)
    requires |tabs| == |InWindow(layouts, w)|
    ensures multiset(WriteBack(layouts, w, tabs)) + multiset(InWindow(layouts, w)) == multiset(layouts) + multiset(tabs)
  {
    if layouts != [] {
      var own := layouts[0].windowId == w;
      var rest := if own then tabs[1..] else tabs;
      WriteBackMultiset(layouts[1..], w, rest);
      HeadMultiset(layouts);
      WriteBackHead(layouts, w, tabs);
      var none: multiset<Layout> := multiset{};
      var a, b := multiset(WriteBack(layouts[1..], w, rest)), multiset(InWindow(layouts[1..], w));
      var c, d := multiset(layouts[1..]), multiset(rest);
      hide WriteBack, InWindow;
      if own {
        HeadMultiset(tabs);
        ExchangeMultisets(multiset{tabs[0]}, multiset{layouts[0]}, a, b, c, d);
      } else {
        ExchangeMultisets(multiset{layouts[0]}, none, a, b, c, d);
        assert none + b == b && none + c == c;
        assert (multiset{layouts[0]} + a) + b == c + (multiset{layouts[0]} + d);
      }
    }
  }

  lemma {:induction false} WriteBackHead(layouts: seq<Layout>, w: string, tabs: seq<Layout>)
    requires layouts != [] && |tabs| == |InWindow(layouts, w)|
    ensures var own := layouts[0].windowId == w;
      && |InWindow(layouts[1..], w)| == |tabs| - (if own then 1 else 0)
      && multiset(InWindow(layouts, w)) == (if own then multiset{layouts[0]} else multiset{}) + multiset(InWindow(layouts[1..], w))
      && multiset(WriteBack(layouts, w, tabs)) == multiset{if own then tabs[0] else layouts[0]}
          + multiset(WriteBack(layouts[1..], w, if own then tabs[1..] else tabs))
  {
  }

  // ----- rotation is a move -----

  lemma {:induction false} RotateIsMove<T>(s: seq<T>, from: nat, to: nat)
    requires from < |s| && to < |s|
    ensures from <= to ==> Rotate(s, from, from + 1, to + 1) == MoveItem(s, from, to)
    ensures to <= from ==> Rotate(s, to, from, from + 1) == MoveItem(s, from, to)
  {
    if from <= to {
      RotateForward(s, from, to);
    }
    if to <= from {
      RotateBackward(s, from, to);
    }
  }

  lemma {:induction false} RotateForward<T>(s: seq<T>, from: nat, to: nat)
    requires from <= to < |s|
    ensures Rotate(s, from, from + 1, to + 1) == MoveItem(s, from, to)
  {
    hide InsertAt;
    var a, b := s[..from] + s[from + 1..to + 1], s[to + 1..];
    assert RemoveAt(s, from) == a + b;
    InsertBetween(a, b, s[from]);
    assert s[from..from + 1] == [s[from]];
    assert Rotate(s, from, from + 1, to + 1) == a + [s[from]] + b;
  }

  lemma {:induction false} RotateBackward<T>(s: seq<T>, from: nat, to: nat)
    requires to <= from < |s|
    ensures Rotate(s, to, from, from + 1) == MoveItem(s, from, to)
  {
    hide InsertAt;
    var a, b := s[..to], s[to..from] + s[from + 1..];
    assert RemoveAt(s, from) == a + b;
    InsertBetween(a, b, s[from]);
    assert s[from..from + 1] == [s[from]];
    assert Rotate(s, to, from, from + 1) == a + [s[from]] + b;
  }

  lemma {:induction false} MoveItemBack<T>(s: seq<T>, from: nat, to: nat)
    requires from < |s| && to < |s|
    ensures MoveItem(MoveItem(s, from, to), to, from) == s
  {
    var rest := RemoveAt(s, from);
    InsertThenRemove(rest, to, s[from]);
    assert InsertAt(rest, from, s[from]) == s;
  }

  lemma {:induction false} MoveItemMultiset<T>(s: seq<T>, from: nat, to: nat)
    requires from < |s| && to < |s|
    ensures multiset(MoveItem(s, from, to)) == multiset(s)
  {
    RemoveMultiset(s, from);
    InsertMultiset(RemoveAt(s, from), to, s[from]);
  }

  // ----- the two ways of moving a tab inside its window -----

  lemma {:induction false} MoveItemAllIn(tabs: seq<Layout>, from: nat, to: nat, w: string)
    requires AllIn(tabs, w) && from < |tabs| && to < |tabs|
    ensures AllIn(MoveItem(tabs, from, to), w)
  {
    var rest := RemoveAt(tabs, from);
    assert AllIn(rest, w);
  }

  /**
   Dragging: the window's tabs are reordered by moving the tab to the target rank; every other
   window keeps its tabs.
   */
  lemma {:induction false} MovedWithinOrder(layouts: seq<Layout>, k: nat, t: nat, v: string)
    requires k < |layouts| && t < |InWindow(layouts, layouts[k].windowId)|
    ensures RankOf(layouts, k) < |InWindow(layouts, layouts[k].windowId)|
    ensures var moved := InWindow(MovedWithin(layouts, k, t), v);
      if v == layouts[k].windowId then
        moved == MoveItem(InWindow(layouts, v), RankOf(layouts, k), t) && |moved| == |InWindow(layouts, v)| && moved[t] == layouts[k]
      else
        moved == InWindow(layouts, v)
  {
    var w := layouts[k].windowId;
    var tabs := InWindow(layouts, w);
    var r := RankOf(layouts, k);
    RankInRange(layouts, k);
    InWindowAllIn(layouts, w);
    MoveItemAllIn(tabs, r, t, w);
    MoveItemHits(tabs, r, t);
    hide MoveItem, AllIn;
    WriteBackInWindow(layouts, w, MoveItem(tabs, r, t), v);
  }

  /**
   Dragging, seen globally: tabs of other windows stay at their positions, every slot keeps its
   window, and no tab is lost or duplicated.
   */
  lemma {:induction false} MovedWithinPlaces(layouts: seq<Layout>, k: nat, t: nat)
    requires k < |layouts| && t < |InWindow(layouts, layouts[k].windowId)|
    ensures var moved := MovedWithin(layouts, k, t);
      && |moved| == |layouts|
      && (forall i :: 0 <= i < |layouts| && layouts[i].windowId != layouts[k].windowId ==> moved[i] == layouts[i])
      && (forall i :: 0 <= i < |layouts| ==> moved[i].windowId == layouts[i].windowId)
      && multiset(moved) == multiset(layouts)
  {
    var w := layouts[k].windowId;
    var tabs := InWindow(layouts, w);
    var r := RankOf(layouts, k);
    RankInRange(layouts, k);
    InWindowAllIn(layouts, w);
    MoveItemAllIn(tabs, r, t, w);
    MoveItemMultiset(tabs, r, t);
    MoveItemHits(tabs, r, t);
    hide MoveItem, AllIn;
    var reordered := MoveItem(tabs, r, t);
    forall i | 0 <= i < |layouts|
      ensures layouts[i].windowId != w ==> WriteBack(layouts, w, reordered)[i] == layouts[i]
      ensures WriteBack(layouts, w, reordered)[i].windowId == layouts[i].windowId
    {
      WriteBackKeepsSlots(layouts, w, reordered, i);
    }
    WriteBackMultiset(layouts, w, reordered);
    CancelMultiset(multiset(WriteBack(layouts, w, reordered)), multiset(layouts), multiset(tabs));
  }

  lemma {:induction false} MoveItemHits<T>(s: seq<T>, from: nat, to: nat)
    requires from < |s| && to < |s|
    ensures |MoveItem(s, from, to)| == |s| && MoveItem(s, from, to)[to] == s[from]
  {
  }

  lemma {:induction false} NthFound(layouts: seq<Layout>, w: string, t: nat)
    requires t < |InWindow(layouts, w)|
    ensures var k := NthInWindow(layouts, w, t);
      k < |layouts| && layouts[k] == InWindow(layouts, w)[t] && layouts[k].windowId == w && RankOf(layouts, k) == t
  {
    var k := NthInWindow(layouts, w, t);
    if layouts[0].windowId != w {
      NthFound(layouts[1..], w, t);
      assert layouts[..k][1..] == layouts[1..][..k - 1];
    } else if t > 0 {
      NthFound(layouts[1..], w, t - 1);
      assert layouts[..k][1..] == layouts[1..][..k - 1];
    }
  }

  /** Dragging a tab back to its old rank restores the whole list. */
  lemma {:induction false} MovedBack(layouts: seq<Layout>, k: nat, t: nat)
    requires k < |layouts| && t < |InWindow(layouts, layouts[k].windowId)|
    ensures var w := layouts[k].windowId;
      var moved := MovedWithin(layouts, k, t);
      var back := NthInWindow(moved, w, t);
      && back < |moved| && moved[back] == layouts[k]
      && RankOf(layouts, k) < |InWindow(moved, w)|
      && MovedWithin(moved, back, RankOf(layouts, k)) == layouts
  {
    var w := layouts[k].windowId;
    var tabs := InWindow(layouts, w);
    var r := RankOf(layouts, k);
    RankInRange(layouts, k);
    InWindowAllIn(layouts, w);
    MoveItemAllIn(tabs, r, t, w);
    MoveItemHits(tabs, r, t);
    MoveItemBack(tabs, r, t);
    var reordered := MoveItem(tabs, r, t);
    hide MoveItem;
    WriteBackInWindow(layouts, w, reordered, w);
    WriteBackTwice(layouts, w, reordered, tabs);
    WriteBackSame(layouts, w);
    NthFound(MovedWithin(layouts, k, t), w, t);
  }

  /**
   Inserting: the target window gets the tab at the target rank (or at its end), the source
   window loses it, and all other windows keep their tabs.
   */
  lemma {:induction false} ReinsertedEffect(layouts: seq<Layout>, k: nat, moved: Layout, t: nat, v: string)
    requires k < |layouts|
    ensures RankOf(layouts, k) < |InWindow(layouts, layouts[k].windowId)|
    ensures var w := layouts[k].windowId;
      var left := if v == w then RemoveAt(InWindow(layouts, v), RankOf(layouts, k)) else InWindow(layouts, v);
      InWindow(Reinserted(layouts, k, moved, t), v)
        == if v == moved.windowId then InsertAt(left, if t < |left| then t else |left|, moved) else left
  {
    RankInRange(layouts, k);
    InWindowRemove(layouts, k, v);
    var rest := RemoveAt(layouts, k);
    hide RemoveAt, InsertAt;
    if v == moved.windowId {
      InWindowInsert(rest, moved, t);
    } else {
      InWindowInsertOther(rest, moved, NthInWindow(rest, moved.windowId, t), v);
    }
  }

  /** Inside one window the two ways of moving a tab agree on the tabs of every window. */
  lemma {:induction false} DragAndInsertAgree(layouts: seq<Layout>, k: nat, t: nat, v: string)
    requires k < |layouts| && t < |InWindow(layouts, layouts[k].windowId)|
    ensures InWindow(Reinserted(layouts, k, layouts[k], t), v) == InWindow(MovedWithin(layouts, k, t), v)
  {
    ReinsertedEffect(layouts, k, layouts[k], t, v);
    MovedWithinOrder(layouts, k, t, v);
    RankInRange(layouts, k);
    assert v == layouts[k].windowId ==> |RemoveAt(InWindow(layouts, v), RankOf(layouts, k))| == |InWindow(layouts, v)| - 1;
  }

  /** The global lists may differ: with tabs a, b, c where b is in another window, moving a to rank 1. */
  lemma {:induction false} DragAndInsertDifferGlobally(a: Layout, b: Layout, c: Layout)
    requires a.windowId == c.windowId != b.windowId
    ensures |InWindow([a, b, c], a.windowId)| == 2
    ensures MovedWithin([a, b, c], 0, 1) == [c, b, a]
    ensures Reinserted([a, b, c], 0, a, 1) == [b, c, a]
  {
    var w := a.windowId;
    assert [a, b, c][1..] == [b, c] && [b, c][1..] == [c] && [c][1..] == [];
    assert InWindow([c], w) == [c];
    assert InWindow([b, c], w) == [c];
    assert InWindow([a, b, c], w) == [a, c];
    assert [a, b, c][..0] == [];
    assert MoveItem([a, c], 0, 1) == [c, a];
    assert [c, a][1..] == [a] && [a][1..] == [];
    assert WriteBack([c], w, [a]) == [a];
    assert WriteBack([b, c], w, [a]) == [b, a];
    assert RemoveAt([a, b, c], 0) == [b, c];
    assert NthInWindow([c], w, 1) == 1;
    assert NthInWindow([b, c], w, 1) == 2;
  }
}
