/**
 The list model behind the tab strip.  `SetTabs` turns the rows it shows into a
 given list through single-row removals, insertions, moves and changes, so that a
 view which keeps one delegate per row never recreates the delegate of a surviving tab.

 `Script` is the edit script as a function of the two lists; the method is proved to
 perform exactly that script, and the lemmas say what the script does and what it
 leaves alone.
 */
module TabListModel {
  import opened Lists

  /** A cell value: `text` is its string rendering, which is all that an id lookup sees. */
  datatype Variant = Text(text: string) | Other(tag: int, text: string)

  type Row = map<string, Variant>

  /** A missing "id" key reads as the empty string. */
  function IdOf(row: Row): string {
    if "id" in row then row["id"].text else ""
  }

  function Ids(rows: seq<Row>): set<string> {
    set k | 0 <= k < |rows| :: IdOf(rows[k])
  }

  predicate Unique(rows: seq<Row>) {
    forall i, j :: 0 <= i < j < |rows| ==> IdOf(rows[i]) != IdOf(rows[j])
  }

  /** What `SetTabs` insists on: every id present, none twice. */
  predicate Acceptable(rows: seq<Row>) {
    Unique(rows) && forall k :: 0 <= k < |rows| ==> IdOf(rows[k]) != ""
  }

  // ----- change notifications and their replay -----

  /** One notification to the view, in the order they are sent. */
  datatype Step =
    | RowRemoved(row: nat, id: string)
    | RowInserted(row: nat, value: Row)
    | RowMoved(from: nat, to: nat, id: string)
    | RowChanged(row: nat, value: Row)
    | TabsChanged

  predicate Legal(rows: seq<Row>, step: Step) {
    match step
    case RowRemoved(row, id) => row < |rows| && IdOf(rows[row]) == id
    case RowInserted(row, value) => row <= |rows|
    case RowMoved(from, to, id) => to < from < |rows| && IdOf(rows[from]) == id
    case RowChanged(row, value) => row < |rows| && IdOf(rows[row]) == IdOf(value) && rows[row] != value
    case TabsChanged => true
  }

  function Apply(rows: seq<Row>, step: Step): seq<Row>
    requires Legal(rows, step)
  {
    match step
    case RowRemoved(row, _) => RemoveAt(rows, row)
    case RowInserted(row, value) => InsertAt(rows, row, value)
    case RowMoved(from, to, _) => InsertAt(RemoveAt(rows, from), to, rows[from])
    case RowChanged(row, value) => rows[row := value]
    case TabsChanged => rows
  }

  /**
   A mirror that starts from `rows` and follows the notifications ends with `final`:
   every step is legal when it is sent, and ids are unique before, between and after the steps.
   */
  ghost predicate Leads(rows: seq<Row>, log: seq<Step>, final: seq<Row>)
    decreases |log|
  {
    && Unique(rows)
    && if log == [] then rows == final
       else Legal(rows, log[0]) && Leads(Apply(rows, log[0]), log[1..], final)
  }

  datatype Kind = Removal | Insertion | Move | Change

  /** How often the log disturbs tab `id` in this way. */
  function Tally(log: seq<Step>, kind: Kind, id: string): nat {
    if log == [] then 0
    else (if Touches(log[0], kind, id) then 1 else 0) + Tally(log[1..], kind, id)
  }

  predicate Touches(step: Step, kind: Kind, id: string) {
    match step
    case RowRemoved(_, who) => kind == Removal && who == id
    case RowInserted(_, value) => kind == Insertion && IdOf(value) == id
    case RowMoved(_, _, who) => kind == Move && who == id
    case RowChanged(_, value) => kind == Change && IdOf(value) == id
    case TabsChanged => false
  }

  /** Some row with id `a` stands before some row with id `b`. */
  predicate Precedes(rows: seq<Row>, a: string, b: string) {
    exists i, j :: 0 <= i < j < |rows| && IdOf(rows[i]) == a && IdOf(rows[j]) == b
  }

  /** Some survivor precedes `id` in the old list and follows it in the new one. */
  ghost predicate Overtaken(rows: seq<Row>, next: seq<Row>, id: string) {
    exists y :: Precedes(rows, y, id) && Precedes(next, id, y)
  }

  // ----- the edit script -----

  /** The rows whose ids are in `keep`, in their order. */
  function Kept(rows: seq<Row>, keep: set<string>): seq<Row> {
    if rows == [] then []
    else (if IdOf(rows[0]) in keep then [rows[0]] else []) + Kept(rows[1..], keep)
  }

  /** Index of the first row with this id; the length of the list if there is none. */
  function IndexOf(rows: seq<Row>, id: string): (k: nat)
    ensures k <= |rows|
    ensures k < |rows| ==> IdOf(rows[k]) == id
    ensures forall i :: 0 <= i < k ==> IdOf(rows[i]) != id
  {
    if rows == [] || IdOf(rows[0]) == id then 0 else 1 + IndexOf(rows[1..], id)
  }

  /** Removals among the first `n` rows, last row first. */
  function Removals(rows: seq<Row>, keep: set<string>, n: nat): seq<Step>
    requires n <= |rows|
  {
    if n == 0 then []
    else
      var id := IdOf(rows[n - 1]);
      (if id !in keep then [RowRemoved(n - 1, id)] else []) + Removals(rows, keep, n - 1)
  }

  /** The steps for target row `r`, when `rest` are the old rows not yet placed. */
  function PlaceOne(rest: seq<Row>, target: Row, r: nat): seq<Step> {
    var j := IndexOf(rest, IdOf(target));
    if j == |rest| then [RowInserted(r, target)]
    else
      (if j != 0 then [RowMoved(r + j, r, IdOf(target))] else [])
      + (if rest[j] != target then [RowChanged(r, target)] else [])
  }

  function RestAfter(rest: seq<Row>, target: Row): seq<Row> {
    var j := IndexOf(rest, IdOf(target));
    if j == |rest| then rest else RemoveAt(rest, j)
  }

  /** The steps that place target rows `r`, `r + 1`, ... */
  function Placements(rest: seq<Row>, next: seq<Row>, r: nat): seq<Step>
    requires r <= |next|
    decreases |next| - r
  {
    if r == |next| then []
    else PlaceOne(rest, next[r], r) + Placements(RestAfter(rest, next[r]), next, r + 1)
  }

  function Script(old_: seq<Row>, next: seq<Row>): seq<Step> {
    if next == old_ then []
    else Removals(old_, Ids(next), |old_|) + Placements(Kept(old_, Ids(next)), next, 0) + [TabsChanged]
  }

  // ----- the model object -----

  class TerminalTabListModel {
    var rows: seq<Row>
    /** Everything the views were told so far. */
    ghost var log: seq<Step>

    ghost predicate Valid()
      reads this
    {
      Acceptable(rows)
    }

    constructor ()
      ensures Valid() && rows == [] && log == []
    {
      rows := [];
      log := [];
    }

    function RowCount(): nat
      reads this
    {
      |rows|
    }

    method Tabs() returns (result: seq<Row>)
      ensures result == rows
    {
      result := [];
      for k := 0 to |rows|
        invariant result == rows[..k]
      {
        result := result + [rows[k]];
      }
    }

    /** Replaces the shown rows; an unacceptable list is ignored without any notification. */
    method SetTabs(tabs: seq<Row>)
      requires Valid()
      modifies this
      ensures Valid()
      ensures Acceptable(tabs) ==> rows == tabs && log == old(log) + Script(old(rows), tabs)
      ensures !Acceptable(tabs) ==> rows == old(rows) && log == old(log)
    {
      hide Ids, Unique, Kept, Removals, Placements, Placeable, RemoveAt, InsertAt, IdOf;
      var ids, next := CollectIds(tabs);
      if |next| < |tabs| {
        return;
      }
      if next == rows {
        return;
      }
      ghost var start := log;
      RemoveStale(ids);
      KeptIsPlaceable(old(rows), next);
      PlaceAll(next);
      log := log + [TabsChanged];
      assert log == start + Script(old(rows), tabs);
    }

    /** The validating loop: stops short at a missing or repeated id. */
    method CollectIds(tabs: seq<Row>) returns (ids: set<string>, next: seq<Row>)
      ensures Acceptable(tabs) <==> |next| == |tabs|
      ensures |next| <= |tabs|
      ensures Acceptable(tabs) ==> next == tabs && ids == Ids(tabs)
    {
      ids := {};
      next := [];
      for k := 0 to |tabs|
        invariant next == tabs[..k] && ids == Ids(tabs[..k]) && Acceptable(tabs[..k])
      {
        var row := tabs[k];
        var id := IdOf(row);
        if id == "" || id in ids {
          assert id in ids ==> exists i :: 0 <= i < k && IdOf(tabs[..k][i]) == id;
          return;
        }
        IdsOfSplit(tabs[..k], [row]);
        assert tabs[..k + 1] == tabs[..k] + [row];
        assert forall i :: 0 <= i < k ==> IdOf(tabs[..k][i]) in ids;
        ids := ids + {id};
        next := next + [row];
      }
      assert tabs[..|tabs|] == tabs;
    }

    /** First loop: drops the rows whose ids are gone, from the last row up. */
    method RemoveStale(ids: set<string>)
      modifies this
      ensures rows == Kept(old(rows), ids)
      ensures log == old(log) + Removals(old(rows), ids, |old(rows)|)
    {
      hide IdOf, Kept;
      ghost var all, start := rows, log;
      var row := |rows| - 1;
      NothingKept(ids);
      assert all[..|all|] + [] == all;
      while row >= 0
        invariant -1 <= row < |all|
        invariant rows == all[..row + 1] + Kept(all[row + 1..], ids)
        invariant log + Removals(all, ids, row + 1) == start + Removals(all, ids, |all|)
      {
        RemoveIfStale(row, ids, all);
        row := row - 1;
      }
      assert all[0..] == all;
    }

    method RemoveIfStale(row: nat, ids: set<string>, ghost all: seq<Row>)
      requires row < |all| && rows == all[..row + 1] + Kept(all[row + 1..], ids)
      modifies this
      ensures rows == all[..row] + Kept(all[row..], ids)
      ensures log + Removals(all, ids, row) == old(log) + Removals(all, ids, row + 1)
    {
      hide RemoveAt, IdOf, Kept;
      RemovalStep(all, ids, row);
      if IdOf(rows[row]) !in ids {
        log := log + [RowRemoved(row, IdOf(rows[row]))];
        rows := RemoveAt(rows, row);
      }
    }

    /** Second loop: brings target row after target row into place. */
    method PlaceAll(next: seq<Row>)
      requires Placeable(rows, next, 0)
      modifies this
      ensures rows == next
      ensures log == old(log) + Placements(old(rows), next, 0)
    {
      hide IdOf, Ids, Unique, Placeable, PlaceOne, RestAfter;
      ghost var rest, all, start := rows, rows, log;
      var row := 0;
      while row < |next|
        invariant 0 <= row <= |next|
        invariant rows == next[..row] + rest
        invariant Placeable(rest, next, row)
        invariant log + Placements(rest, next, row) == start + Placements(all, next, 0)
      {
        ghost var before := log;
        PlaceRow(next, row, rest);
        RestAfterProperties(rest, next, row);
        rest := RestAfter(rest, next[row]);
        row := row + 1;
      }
      NothingLeft(rest, next);
    }

    /** One round of that loop: reuse the row with the target's id, or insert the target. */
    method PlaceRow(next: seq<Row>, row: nat, ghost rest: seq<Row>)
      requires row < |next| && rows == next[..row] + rest
      modifies this
      ensures rows == next[..row + 1] + RestAfter(rest, next[row])
      ensures log == old(log) + PlaceOne(rest, next[row], row)
    {
      hide IdOf, RemoveAt, InsertAt, RestAfter;
      var id := IdOf(next[row]);
      PlacementStep(rest, next, row);
      var found := FindFrom(row, id);
      IndexOfSuffix(next[..row], rest, id, found);
      if found == |rows| {
        log := log + [RowInserted(row, next[row])];
        rows := InsertAt(rows, row, next[row]);
      } else {
        if found != row {
          log := log + [RowMoved(found, row, id)];
          rows := InsertAt(RemoveAt(rows, found), row, rows[found]);
        }
        if rows[row] != next[row] {
          log := log + [RowChanged(row, next[row])];
          rows := rows[row := next[row]];
        }
      }
    }

    /** The inner search: first row at or after `from` with this id. */
    method FindFrom(from: nat, id: string) returns (found: nat)
      requires from <= |rows|
      ensures from <= found <= |rows|
      ensures found < |rows| ==> IdOf(rows[found]) == id
      ensures forall k :: from <= k < found ==> IdOf(rows[k]) != id
    {
      found := from;
      while found < |rows| && IdOf(rows[found]) != id
        invariant from <= found <= |rows|
        invariant forall k :: from <= k < found ==> IdOf(rows[k]) != id
      {
        found := found + 1;
      }
    }
  }

  // ----- facts about the pieces -----

  lemma {:induction false} KeptProperties(rows: seq<Row>, keep: set<string>)
    requires Unique(rows)
    ensures Unique(Kept(rows, keep))
    ensures Ids(Kept(rows, keep)) == Ids(rows) * keep
    ensures forall row :: row in Kept(rows, keep) <==> row in rows && IdOf(row) in keep
  {
    if rows != [] {
      KeptProperties(rows[1..], keep);
      IdsOfOne(rows[0]);
      IdsOfSplit([rows[0]], rows[1..]);
      assert [rows[0]] + rows[1..] == rows;
      var head := if IdOf(rows[0]) in keep then [rows[0]] else [];
      IdsOfSplit(head, Kept(rows[1..], keep));
      assert forall k :: 0 <= k < |rows[1..]| ==> IdOf(rows[1..][k]) != IdOf(rows[0]);
      assert IdOf(rows[0]) !in Ids(rows[1..]);
      assert Kept(rows, keep) == head + Kept(rows[1..], keep);
      assert forall k :: 0 <= k < |Kept(rows[1..], keep)| ==> IdOf(Kept(rows[1..], keep)[k]) in Ids(rows[1..]) * keep;
    }
  }

  lemma {:induction false} IdsOfOne(row: Row)
    ensures Ids([row]) == {IdOf(row)} && Ids([]) == {}
  {
    assert [row][0] == row;
  }

  lemma {:induction false} IdsOfSplit(a: seq<Row>, b: seq<Row>)
    ensures Ids(a + b) == Ids(a) + Ids(b)
  {
    forall id | id in Ids(a) + Ids(b)
      ensures id in Ids(a + b)
    {
      if id in Ids(a) {
        var k :| 0 <= k < |a| && IdOf(a[k]) == id;
        assert (a + b)[k] == a[k];
      } else {
        var k :| 0 <= k < |b| && IdOf(b[k]) == id;
        assert (a + b)[|a| + k] == b[k];
      }
    }
  }

  /** The old rows still to be placed are distinct and all have a place among the targets from `r` on. */
  ghost predicate Placeable(rest: seq<Row>, next: seq<Row>, r: nat)
    requires r <= |next|
  {
    && Unique(rest) && Unique(next)
    && forall k :: 0 <= k < |rest| ==> IdOf(rest[k]) in Ids(next[r..])
  }

  lemma {:induction false} NothingKept(keep: set<string>)
    ensures Kept([], keep) == []
  {
  }

  lemma {:induction false} KeptIsPlaceable(rows: seq<Row>, next: seq<Row>)
    requires Unique(rows) && Unique(next)
    ensures Placeable(Kept(rows, Ids(next)), next, 0)
  {
    KeptProperties(rows, Ids(next));
    assert next[0..] == next;
  }

  /** Every old row still to be placed has a target, so after the last target none is left. */
  lemma {:induction false} NothingLeft(rest: seq<Row>, next: seq<Row>)
    requires Placeable(rest, next, |next|)
    ensures rest == []
  {
    var stillWanted := rest != [] && IdOf(rest[0]) in Ids(next[|next|..]);
    assert !stillWanted;
  }

  lemma {:induction false} RemovalStep(all: seq<Row>, ids: set<string>, row: nat)
    requires row < |all|
    ensures var shown := all[..row + 1] + Kept(all[row + 1..], ids);
      && shown[row] == all[row]
      && (if IdOf(all[row]) in ids then shown else RemoveAt(shown, row)) == all[..row] + Kept(all[row..], ids)
  {
    hide RemoveAt, IdOf;
    var tail := Kept(all[row + 1..], ids);
    assert all[row..][1..] == all[row + 1..];
    assert all[..row + 1] == all[..row] + [all[row]];
    RemoveFromPrefix(all[..row + 1], tail, row);
    RemoveLast(all[..row], all[row]);
    assert all[..row + 1] + tail == all[..row] + ([all[row]] + tail);
  }

  lemma {:induction false} PlacementStep(rest: seq<Row>, next: seq<Row>, r: nat)
    requires r < |next|
    ensures var shown := next[..r] + rest;
      var j := IndexOf(rest, IdOf(next[r]));
      if j == |rest| then
        InsertAt(shown, r, next[r]) == next[..r + 1] + RestAfter(rest, next[r])
      else
        var moved := if j == 0 then shown else InsertAt(RemoveAt(shown, r + j), r, shown[r + j]);
        && shown[r + j] == rest[j]
        && r < |moved| && moved[r] == rest[j]
        && moved[r := next[r]] == next[..r + 1] + RestAfter(rest, next[r])
  {
    hide RemoveAt, InsertAt, IdOf;
    var j := IndexOf(rest, IdOf(next[r]));
    assert next[..r + 1] == next[..r] + [next[r]];
    if j == |rest| {
      InsertBetween(next[..r], rest, next[r]);
    } else {
      MoveToFront(next[..r], rest, j);
      ReplaceBetween(next[..r], rest[j], RemoveAt(rest, j), next[r]);
      if j == 0 {
        SplitFirst(next[..r], rest);
      }
    }
  }

  lemma {:induction false} IndexOfSuffix(a: seq<Row>, rest: seq<Row>, id: string, found: nat)
    requires |a| <= found <= |a| + |rest|
    requires found < |a| + |rest| ==> IdOf((a + rest)[found]) == id
    requires forall k :: |a| <= k < found ==> IdOf((a + rest)[k]) != id
    ensures found == |a| + IndexOf(rest, id)
  {
    var j := IndexOf(rest, id);
    assert j < |rest| ==> (a + rest)[|a| + j] == rest[j];
    assert forall i :: 0 <= i < |rest| ==> (a + rest)[|a| + i] == rest[i];
    assert found < |a| + |rest| ==> IdOf(rest[found - |a|]) == id;
  }

  /** Taking the target out of the rest leaves exactly the other ids, still distinct. */
  lemma {:induction false} RestAfterProperties(rest: seq<Row>, next: seq<Row>, r: nat)
    requires r < |next| && Placeable(rest, next, r)
    ensures Placeable(RestAfter(rest, next[r]), next, r + 1)
    ensures forall k :: 0 <= k < |RestAfter(rest, next[r])| ==> IdOf(RestAfter(rest, next[r])[k]) != IdOf(next[r])
  {
    var id := IdOf(next[r]);
    var j := IndexOf(rest, id);
    var after := RestAfter(rest, next[r]);
    forall k | 0 <= k < |after|
      ensures IdOf(after[k]) != id && IdOf(after[k]) in Ids(next[r + 1..])
    {
      var i := if k < j then k else k + 1;
      assert after[k] == rest[if j == |rest| then k else i];
      var m :| 0 <= m < |next[r..]| && IdOf(next[r..][m]) == IdOf(after[k]);
      assert next[r..][m] == next[r + 1..][m - 1];
    }
  }

  // ----- what a mirror sees -----

  lemma {:induction false} UniqueShown(rest: seq<Row>, next: seq<Row>, r: nat)
    requires r <= |next| && Placeable(rest, next, r)
    ensures Unique(next[..r] + rest)
  {
    forall i, j | 0 <= i < r && 0 <= j < |rest|
      ensures IdOf(next[i]) != IdOf(rest[j])
    {
      var m :| 0 <= m < |next[r..]| && IdOf(next[r..][m]) == IdOf(rest[j]);
      assert next[r..][m] == next[r + m];
    }
  }

  lemma {:induction false} LeadsPlacements(rest: seq<Row>, next: seq<Row>, r: nat, more: seq<Step>, final: seq<Row>)
    requires r <= |next| && Placeable(rest, next, r)
    requires Leads(next, more, final)
    ensures Leads(next[..r] + rest, Placements(rest, next, r) + more, final)
    decreases |next| - r
  {
    hide IdOf, Unique, Placeable, RestAfter, Ids, Leads, PlaceOne, Placements;
    UnfoldPlacements(rest, next, r);
    if r == |next| {
      NothingLeft(rest, next);
      assert next[..r] + rest == next;
      assert [] + more == more;
    } else {
      var after := RestAfter(rest, next[r]);
      RestAfterProperties(rest, next, r);
      LeadsPlacements(after, next, r + 1, more, final);
      var tail := Placements(after, next, r + 1) + more;
      LeadsPlaceOne(rest, next, r, tail, final);
      assert Placements(rest, next, r) + more == PlaceOne(rest, next[r], r) + tail;
    }
  }

  lemma {:induction false} UnfoldPlacements(rest: seq<Row>, next: seq<Row>, r: nat)
    requires r <= |next|
    ensures Placements(rest, next, r)
         == if r == |next| then [] else PlaceOne(rest, next[r], r) + Placements(RestAfter(rest, next[r]), next, r + 1)
  {
  }

  lemma {:induction false} UnfoldRemovals(rows: seq<Row>, keep: set<string>, n: nat)
    requires n <= |rows|
    ensures Removals(rows, keep, n)
         == if n == 0 then [] else (if IdOf(rows[n - 1]) !in keep then [RowRemoved(n - 1, IdOf(rows[n - 1]))] else []) + Removals(rows, keep, n - 1)
  {
  }

  lemma {:induction false} LeadsPlaceOne(rest: seq<Row>, next: seq<Row>, r: nat, tail: seq<Step>, final: seq<Row>)
    requires r < |next| && Placeable(rest, next, r)
    requires Leads(next[..r + 1] + RestAfter(rest, next[r]), tail, final)
    ensures Leads(next[..r] + rest, PlaceOne(rest, next[r], r) + tail, final)
  {
    hide RestAfter, Placeable, Ids, RemoveAt, InsertAt, Leads, IdOf, Unique;
    var shown := next[..r] + rest;
    var j := IndexOf(rest, IdOf(next[r]));
    UniqueShown(rest, next, r);
    PlacementStep(rest, next, r);
    if j == |rest| {
      LeadsFirst(shown, RowInserted(r, next[r]), tail, final);
      assert PlaceOne(rest, next[r], r) + tail == [RowInserted(r, next[r])] + tail;
    } else {
      var moved := if j == 0 then shown else InsertAt(RemoveAt(shown, r + j), r, shown[r + j]);
      var change := if rest[j] != next[r] then [RowChanged(r, next[r])] else [];
      LeadsChange(moved, r, next[r], tail, final);
      if j == 0 {
        assert PlaceOne(rest, next[r], r) + tail == change + tail;
      } else {
        LeadsFirst(shown, RowMoved(r + j, r, IdOf(next[r])), change + tail, final);
        assert PlaceOne(rest, next[r], r) + tail == [RowMoved(r + j, r, IdOf(next[r]))] + (change + tail);
      }
    }
  }

  /** Overwriting a row by its new value, with a notification only if they differ. */
  lemma {:induction false} LeadsChange(moved: seq<Row>, r: nat, target: Row, tail: seq<Step>, final: seq<Row>)
    requires r < |moved| && IdOf(moved[r]) == IdOf(target)
    requires Leads(moved[r := target], tail, final)
    ensures Leads(moved, (if moved[r] != target then [RowChanged(r, target)] else []) + tail, final)
  {
    assert Unique(moved[r := target]);
    SameIds(moved[r := target], moved, r, target);
    hide Leads, Unique, IdOf;
    if moved[r] == target {
      assert moved[r := target] == moved;
      assert [] + tail == tail;
    } else {
      LeadsFirst(moved, RowChanged(r, target), tail, final);
    }
  }

  lemma {:induction false} LeadsFirst(rows: seq<Row>, step: Step, tail: seq<Step>, final: seq<Row>)
    requires Unique(rows) && Legal(rows, step) && Leads(Apply(rows, step), tail, final)
    ensures Leads(rows, [step] + tail, final)
  {
    hide Apply, Legal, Unique;
    assert ([step] + tail)[1..] == tail;
  }

  /** Replacing a row by one with the same id does not matter to uniqueness. */
  lemma {:induction false} SameIds(placed: seq<Row>, moved: seq<Row>, r: nat, target: Row)
    requires r < |moved| && placed == moved[r := target] && IdOf(moved[r]) == IdOf(target)
    requires Unique(placed)
    ensures Unique(moved)
  {
    assert forall k :: 0 <= k < |moved| ==> IdOf(moved[k]) == IdOf(placed[k]);
  }

  lemma {:induction false} LeadsRemovals(all: seq<Row>, keep: set<string>, n: nat, more: seq<Step>, final: seq<Row>)
    requires n <= |all| && Unique(all)
    requires Leads(Kept(all, keep), more, final)
    ensures Leads(all[..n] + Kept(all[n..], keep), Removals(all, keep, n) + more, final)
    decreases n
  {
    hide IdOf, RemoveAt, Unique, Kept, Leads, Removals;
    UnfoldRemovals(all, keep, n);
    if n == 0 {
      assert all[0..] == all;
      assert all[..0] + Kept(all[0..], keep) == Kept(all, keep);
      assert [] + more == more;
    } else {
      LeadsRemovals(all, keep, n - 1, more, final);
      var tail := Removals(all, keep, n - 1) + more;
      LeadsOneRemoval(all, keep, n - 1, tail, final);
      var id := IdOf(all[n - 1]);
      assert Removals(all, keep, n) + more == (if id !in keep then [RowRemoved(n - 1, id)] else []) + tail;
    }
  }

  lemma {:induction false} LeadsOneRemoval(all: seq<Row>, keep: set<string>, row: nat, tail: seq<Step>, final: seq<Row>)
    requires row < |all| && Unique(all)
    requires Leads(all[..row] + Kept(all[row..], keep), tail, final)
    ensures Leads(all[..row + 1] + Kept(all[row + 1..], keep),
                  (if IdOf(all[row]) !in keep then [RowRemoved(row, IdOf(all[row]))] else []) + tail, final)
  {
    hide IdOf, RemoveAt, Unique, Kept, Leads;
    var shown := all[..row + 1] + Kept(all[row + 1..], keep);
    var id := IdOf(all[row]);
    RemovalStep(all, keep, row);
    UniqueHalfKept(all, keep, row + 1);
    if id in keep {
      assert [] + tail == tail;
    } else {
      LeadsFirst(shown, RowRemoved(row, id), tail, final);
    }
  }

  lemma {:induction false} UniqueHalfKept(all: seq<Row>, keep: set<string>, n: nat)
    requires n <= |all| && Unique(all)
    ensures Unique(all[..n] + Kept(all[n..], keep))
  {
    var tail := Kept(all[n..], keep);
    KeptProperties(all[n..], keep);
    forall i, j | 0 <= i < n && 0 <= j < |tail|
      ensures IdOf(all[i]) != IdOf(tail[j])
    {
      assert tail[j] in all[n..];
    }
  }

  lemma {:induction false} JustTold(next: seq<Row>)
    requires Acceptable(next)
    ensures Leads(next, [TabsChanged], next)
  {
    assert Leads(next, [], next);
    assert [TabsChanged][1..] == [];
  }

  /**
   For any old rows with unique ids and any acceptable new list, following the script from a
   copy of the old rows is legal at every step, keeps ids unique throughout and ends with
   exactly the new list.
   */
  lemma {:induction false} ScriptLeadsToNewRows(rows: seq<Row>, next: seq<Row>)
    requires Unique(rows) && Acceptable(next)
    ensures Leads(rows, Script(rows, next), next)
  {
    hide Unique, Ids, Leads, Removals, Placements, Acceptable, Kept, Placeable, Script;
    AcceptableIsUnique(next);
    if rows == next {
      NothingToDo(rows);
      return;
    }
    var kept := Kept(rows, Ids(next));
    KeptIsPlaceable(rows, next);
    JustTold(next);
    LeadsPlacements(kept, next, 0, [TabsChanged], next);
    assert next[..0] + kept == kept;
    WholeScript(rows, next);
    LeadsRemovals(rows, Ids(next), |rows|, Placements(kept, next, 0) + [TabsChanged], next);
    NothingKept(Ids(next));
    assert rows[|rows|..] == [];
    assert rows[..|rows|] + [] == rows;
  }

  lemma {:induction false} AcceptableIsUnique(next: seq<Row>)
    requires Acceptable(next)
    ensures Unique(next)
  {
  }

  lemma {:induction false} NothingToDo(rows: seq<Row>)
    requires Unique(rows)
    ensures Leads(rows, Script(rows, rows), rows)
  {
  }

  lemma {:induction false} WholeScript(rows: seq<Row>, next: seq<Row>)
    requires rows != next
    ensures Script(rows, next) == Removals(rows, Ids(next), |rows|) + (Placements(Kept(rows, Ids(next)), next, 0) + [TabsChanged])
  {
    hide Removals, Placements, Kept, Ids;
  }

  // ----- what is accepted, and when the views are told that the tabs changed -----

  /** A list is accepted exactly if every row has an id that is not empty, and no two the same. */
  lemma {:induction false} AcceptedExactly(rows: seq<Row>)
    ensures Acceptable(rows)
      <==> && (forall k :: 0 <= k < |rows| ==> "id" in rows[k] && rows[k]["id"].text != "")
           && (forall i, j :: 0 <= i < j < |rows| ==> rows[i]["id"].text != rows[j]["id"].text)
  {
    if Acceptable(rows) {
      forall i, j | 0 <= i < j < |rows|
        ensures rows[i]["id"].text != rows[j]["id"].text
      {
        assert IdOf(rows[i]) != IdOf(rows[j]);
      }
    }
  }

  /** No step of the list is the final signal. */
  predicate RowStepsOnly(steps: seq<Step>) {
    forall k :: 0 <= k < |steps| ==> !steps[k].TabsChanged?
  }

  lemma {:induction false} RemovalsAreRowSteps(rows: seq<Row>, keep: set<string>, n: nat)
    requires n <= |rows|
    ensures RowStepsOnly(Removals(rows, keep, n))
  {
    if n > 0 {
      RemovalsAreRowSteps(rows, keep, n - 1);
    }
  }

  lemma {:induction false} PlacementsAreRowSteps(rest: seq<Row>, next: seq<Row>, r: nat)
    requires r <= |next|
    ensures RowStepsOnly(Placements(rest, next, r))
    decreases |next| - r
  {
    hide RestAfter, IdOf;
    if r < |next| {
      PlacementsAreRowSteps(RestAfter(rest, next[r]), next, r + 1);
    }
  }

  /** Equal lists send nothing; any other list sends the signal once, after all changes of rows. */
  lemma {:induction false} ToldOnceAtTheEnd(rows: seq<Row>, next: seq<Row>)
    ensures var script := Script(rows, next);
      if rows == next then script == []
      else script != [] && script[|script| - 1] == TabsChanged && RowStepsOnly(script[..|script| - 1])
  {
    RemovalsAreRowSteps(rows, Ids(next), |rows|);
    PlacementsAreRowSteps(Kept(rows, Ids(next)), next, 0);
    hide Removals, Placements, Kept, Ids;
    var a, b := Removals(rows, Ids(next), |rows|), Placements(Kept(rows, Ids(next)), next, 0);
    assert rows != next ==> Script(rows, next)[..|a + b|] == a + b;
  }

  // ----- which tabs are disturbed -----

  predicate Survives(rows: seq<Row>, next: seq<Row>, id: string) {
    id in Ids(rows) && id in Ids(next)
  }

  /** The tab survives with a different value. */
  predicate ValueDiffers(rows: seq<Row>, next: seq<Row>, id: string) {
    && Survives(rows, next, id)
    && IndexOf(rows, id) < |rows| && IndexOf(next, id) < |next|
    && rows[IndexOf(rows, id)] != next[IndexOf(next, id)]
  }

  function One(condition: bool): nat {
    if condition then 1 else 0
  }

  lemma {:induction false} TallyAppend(a: seq<Step>, b: seq<Step>, kind: Kind, id: string)
    ensures Tally(a + b, kind, id) == Tally(a, kind, id) + Tally(b, kind, id)
  {
    if a == [] {
      assert a + b == b;
    } else {
      TallyAppend(a[1..], b, kind, id);
      assert (a + b)[1..] == a[1..] + b;
    }
  }

  lemma {:induction false} TallyRemovals(rows: seq<Row>, keep: set<string>, n: nat, kind: Kind, id: string)
    requires n <= |rows| && Unique(rows)
    ensures Tally(Removals(rows, keep, n), kind, id)
         == One(kind == Removal && id in Ids(rows[..n]) && id !in keep)
  {
    if n > 0 {
      var last := IdOf(rows[n - 1]);
      TallyRemovals(rows, keep, n - 1, kind, id);
      IdsOfSplit(rows[..n - 1], [rows[n - 1]]);
      assert rows[..n] == rows[..n - 1] + [rows[n - 1]];
      assert last !in Ids(rows[..n - 1]);
      var step := if last !in keep then [RowRemoved(n - 1, last)] else [];
      TallyAppend(step, Removals(rows, keep, n - 1), kind, id);
      assert Tally(step, kind, id) == One(kind == Removal && id == last && id !in keep);
    }
  }

  lemma {:induction false} PrecedesHead(row: Row, rows: seq<Row>, a: string, b: string)
    ensures Precedes([row] + rows, a, b) <==> (IdOf(row) == a && b in Ids(rows)) || Precedes(rows, a, b)
  {
    var all := [row] + rows;
    if Precedes(all, a, b) {
      var i, j :| 0 <= i < j < |all| && IdOf(all[i]) == a && IdOf(all[j]) == b;
      assert IdOf(rows[j - 1]) == b;
      assert i > 0 ==> IdOf(rows[i - 1]) == a;
    }
    if Precedes(rows, a, b) {
      var i, j :| 0 <= i < j < |rows| && IdOf(rows[i]) == a && IdOf(rows[j]) == b;
      assert IdOf(all[i + 1]) == a && IdOf(all[j + 1]) == b;
    }
    if IdOf(row) == a && b in Ids(rows) {
      var j :| 0 <= j < |rows| && IdOf(rows[j]) == b;
      assert IdOf(all[0]) == a && IdOf(all[j + 1]) == b;
    }
  }

  lemma {:induction false} PrecedesKept(rows: seq<Row>, keep: set<string>, a: string, b: string)
    requires Unique(rows) && a in keep && b in keep
    ensures Precedes(Kept(rows, keep), a, b) <==> Precedes(rows, a, b)
  {
    if rows != [] {
      PrecedesKept(rows[1..], keep, a, b);
      KeptProperties(rows[1..], keep);
      assert b in Ids(Kept(rows[1..], keep)) <==> b in Ids(rows[1..]);
      hide Precedes, Ids, IdOf, Unique;
      PrecedesHead(rows[0], rows[1..], a, b);
      assert [rows[0]] + rows[1..] == rows;
      if IdOf(rows[0]) in keep {
        PrecedesHead(rows[0], Kept(rows[1..], keep), a, b);
        assert Kept(rows, keep) == [rows[0]] + Kept(rows[1..], keep);
      } else {
        assert Kept(rows, keep) == Kept(rows[1..], keep);
      }
    }
  }

  lemma {:induction false} PrecedesRemoved(rest: seq<Row>, k: nat, a: string, b: string)
    requires k < |rest| && a != IdOf(rest[k]) && b != IdOf(rest[k])
    ensures Precedes(RemoveAt(rest, k), a, b) <==> Precedes(rest, a, b)
  {
    hide RemoveAt;
    var after := RemoveAt(rest, k);
    if Precedes(after, a, b) {
      var i, j :| 0 <= i < j < |after| && IdOf(after[i]) == a && IdOf(after[j]) == b;
      hide IdOf;
      ElementBeforeRemoval(rest, k, i);
      ElementBeforeRemoval(rest, k, j);
    }
    if Precedes(rest, a, b) {
      var i, j :| 0 <= i < j < |rest| && IdOf(rest[i]) == a && IdOf(rest[j]) == b;
      hide IdOf;
      ElementAfterRemoval(rest, k, i);
      ElementAfterRemoval(rest, k, j);
    }
  }

  lemma {:induction false} PrecedesMembers(rows: seq<Row>, a: string, b: string)
    requires Precedes(rows, a, b)
    ensures a in Ids(rows) && b in Ids(rows)
  {
  }

  lemma {:induction false} PrecedesAntisymmetric(rows: seq<Row>, a: string, b: string)
    requires Unique(rows) && Precedes(rows, a, b)
    ensures !Precedes(rows, b, a)
  {
  }

  /** The target whose turn it is has been overtaken exactly if it is not the first of the rest. */
  lemma {:induction false} OvertakenNow(rest: seq<Row>, next: seq<Row>, r: nat)
    requires r < |next| && Placeable(rest, next, r)
    ensures Overtaken(rest, next, IdOf(next[r])) <==> 0 < IndexOf(rest, IdOf(next[r])) < |rest|
  {
    var id := IdOf(next[r]);
    var j := IndexOf(rest, id);
    if 0 < j < |rest| {
      var y := IdOf(rest[0]);
      assert Precedes(rest, y, id);
      var m :| 0 <= m < |next[r..]| && IdOf(next[r..][m]) == y;
      assert next[r..][m] == next[r + m];
      assert Precedes(next, id, y);
    }
  }

  /** Taking another target out of the rest does not change who has been overtaken. */
  lemma {:induction false} OvertakenLater(rest: seq<Row>, next: seq<Row>, r: nat, id: string)
    requires r < |next| && Placeable(rest, next, r) && id != IdOf(next[r])
    ensures Overtaken(RestAfter(rest, next[r]), next, id) <==> Overtaken(rest, next, id)
  {
    var z := IdOf(next[r]);
    var j := IndexOf(rest, z);
    if j < |rest| {
      if Overtaken(rest, next, id) {
        var y :| Precedes(rest, y, id) && Precedes(next, id, y);
        PrecedesMembers(rest, y, id);
        TargetIsFirst(rest, next, r, id, y);
        PrecedesRemoved(rest, j, y, id);
      }
      if Overtaken(RemoveAt(rest, j), next, id) {
        var y :| Precedes(RemoveAt(rest, j), y, id) && Precedes(next, id, y);
        PrecedesMembers(RemoveAt(rest, j), y, id);
        RestAfterProperties(rest, next, r);
        PrecedesRemoved(rest, j, y, id);
      }
    }
  }

  lemma {:induction false} TargetIsFirst(rest: seq<Row>, next: seq<Row>, r: nat, id: string, y: string)
    requires r < |next| && Placeable(rest, next, r) && id != IdOf(next[r])
    requires id in Ids(rest) && Precedes(next, id, y)
    ensures y != IdOf(next[r])
  {
    var m :| 0 <= m < |next[r..]| && IdOf(next[r..][m]) == id;
    assert next[r..][m] == next[r + m];
    assert Precedes(next, IdOf(next[r]), id);
    PrecedesAntisymmetric(next, id, y);
  }

  lemma {:induction false} TallyPlacements(rest: seq<Row>, next: seq<Row>, r: nat, kind: Kind, id: string)
    requires r <= |next| && Placeable(rest, next, r)
    ensures Tally(Placements(rest, next, r), kind, id) == match kind
      case Removal => 0
      case Insertion => One(id in Ids(next[r..]) && id !in Ids(rest))
      case Move => One(Overtaken(rest, next, id))
      case Change => One(ValueDiffers(rest, next, id))
    decreases |next| - r
  {
    if r == |next| {
      NothingLeft(rest, next);
      assert next[r..] == [];
    } else {
      var after := RestAfter(rest, next[r]);
      RestAfterProperties(rest, next, r);
      TallyPlacements(after, next, r + 1, kind, id);
      TallyAppend(PlaceOne(rest, next[r], r), Placements(after, next, r + 1), kind, id);
      TallyPlaceOne(rest, next, r, kind, id);
      if id == IdOf(next[r]) {
        TargetDone(rest, next, r);
      } else {
        OthersUntouched(rest, next, r, id);
      }
    }
  }

  /** What one round does to each tab. */
  lemma {:induction false} TallyPlaceOne(rest: seq<Row>, next: seq<Row>, r: nat, kind: Kind, id: string)
    requires r < |next| && Placeable(rest, next, r)
    ensures Tally(PlaceOne(rest, next[r], r), kind, id)
         == if id != IdOf(next[r]) then 0 else match kind
              case Removal => 0
              case Insertion => One(id !in Ids(rest))
              case Move => One(Overtaken(rest, next, id))
              case Change => One(ValueDiffers(rest, next, id))
  {
    OvertakenNow(rest, next, r);
    IndexOfUnique(next, r);
    IndexOfMembers(rest, IdOf(next[r]));
    IndexOfMembers(next, IdOf(next[r]));
    hide IdOf, Ids, Unique, Placeable, Overtaken;
    TallyOfOneRound(rest, next[r], r, kind, id);
  }

  lemma {:induction false} TallyOfOneRound(rest: seq<Row>, target: Row, r: nat, kind: Kind, id: string)
    ensures Tally(PlaceOne(rest, target, r), kind, id)
         == if id != IdOf(target) then 0 else match kind
              case Removal => 0
              case Insertion => One(IndexOf(rest, id) == |rest|)
              case Move => One(0 < IndexOf(rest, id) < |rest|)
              case Change => One(IndexOf(rest, id) < |rest| && rest[IndexOf(rest, id)] != target)
  {
    hide IdOf;
    var j := IndexOf(rest, IdOf(target));
    if j < |rest| {
      var move := if j != 0 then [RowMoved(r + j, r, IdOf(target))] else [];
      var change := if rest[j] != target then [RowChanged(r, target)] else [];
      TallyAppend(move, change, kind, id);
    }
  }

  lemma {:induction false} IndexOfUnique(rows: seq<Row>, k: nat)
    requires k < |rows| && Unique(rows)
    ensures IndexOf(rows, IdOf(rows[k])) == k
  {
    var j := IndexOf(rows, IdOf(rows[k]));
    assert k >= j;
  }

  /** Once placed, a tab is not mentioned again. */
  lemma {:induction false} TargetDone(rest: seq<Row>, next: seq<Row>, r: nat)
    requires r < |next| && Placeable(rest, next, r)
    ensures var id, after := IdOf(next[r]), RestAfter(rest, next[r]);
      id !in Ids(next[r + 1..]) && id !in Ids(after) && !Overtaken(after, next, id)
  {
    var id, after := IdOf(next[r]), RestAfter(rest, next[r]);
    RestAfterProperties(rest, next, r);
    forall y | Precedes(after, y, id)
      ensures false
    {
      PrecedesMembers(after, y, id);
    }
  }

  lemma {:induction false} OthersUntouched(rest: seq<Row>, next: seq<Row>, r: nat, id: string)
    requires r < |next| && Placeable(rest, next, r) && id != IdOf(next[r])
    ensures var after := RestAfter(rest, next[r]);
      && (id in Ids(next[r + 1..]) <==> id in Ids(next[r..]))
      && (id in Ids(after) <==> id in Ids(rest))
      && (Overtaken(after, next, id) <==> Overtaken(rest, next, id))
      && (ValueDiffers(after, next, id) <==> ValueDiffers(rest, next, id))
  {
    hide RestAfter, IdOf, Ids, Unique, Overtaken, Placeable, IndexOf;
    OvertakenLater(rest, next, r, id);
    IdsAfterFirst(next, r, id);
    PlaceableIsUnique(rest, next, r);
    OthersKeepTheirRow(rest, next[r], id);
    IndexOfMembers(rest, id);
    IndexOfMembers(RestAfter(rest, next[r]), id);
  }

  lemma {:induction false} PlaceableIsUnique(rest: seq<Row>, next: seq<Row>, r: nat)
    requires r <= |next| && Placeable(rest, next, r)
    ensures Unique(rest) && Unique(next)
  {
  }

  lemma {:induction false} IdsAfterFirst(next: seq<Row>, r: nat, id: string)
    requires r < |next| && id != IdOf(next[r])
    ensures id in Ids(next[r + 1..]) <==> id in Ids(next[r..])
  {
    IdsOfSplit([next[r]], next[r + 1..]);
    assert [next[r]] + next[r + 1..] == next[r..];
  }

  lemma {:induction false} IndexOfMembers(rows: seq<Row>, id: string)
    ensures id in Ids(rows) <==> IndexOf(rows, id) < |rows|
  {
  }

  lemma {:induction false} OthersKeepTheirRow(rest: seq<Row>, target: Row, id: string)
    requires Unique(rest) && id != IdOf(target)
    ensures var after := RestAfter(rest, target);
      var i, k := IndexOf(rest, id), IndexOf(after, id);
      (i < |rest| <==> k < |after|) && (i < |rest| ==> after[k] == rest[i])
  {
    hide RemoveAt, IdOf;
    var after := RestAfter(rest, target);
    var j := IndexOf(rest, IdOf(target));
    if j < |rest| {
      var i, k := IndexOf(rest, id), IndexOf(after, id);
      if i < |rest| {
        ElementAfterRemoval(rest, j, i);
      }
      if k < |after| {
        ElementBeforeRemoval(rest, j, k);
      }
    }
  }

  /**
   The script disturbs the tabs exactly as needed.  A tab that goes is removed once, a tab that
   comes is inserted once; a survivor is never removed or inserted, it is moved (once) if and
   only if it has been overtaken by another survivor, and it is changed (once) if and only if
   its value differs.
   */
  lemma {:induction false} ScriptDisturbsOnlyAsNeeded(rows: seq<Row>, next: seq<Row>, id: string)
    requires Unique(rows) && Acceptable(next)
    ensures Tally(Script(rows, next), Removal, id) == One(id in Ids(rows) && id !in Ids(next))
    ensures Tally(Script(rows, next), Insertion, id) == One(id in Ids(next) && id !in Ids(rows))
    ensures Tally(Script(rows, next), Move, id) == One(Overtaken(rows, next, id))
    ensures Tally(Script(rows, next), Change, id) == One(ValueDiffers(rows, next, id))
  {
    if rows == next {
      forall y | Precedes(rows, y, id)
        ensures !Precedes(next, id, y)
      {
        PrecedesAntisymmetric(rows, y, id);
      }
    } else {
      KeptHasSameSurvivors(rows, next, id);
      forall kind: Kind
        ensures Tally(Script(rows, next), kind, id)
             == One(kind == Removal && id in Ids(rows) && id !in Ids(next))
              + Tally(Placements(Kept(rows, Ids(next)), next, 0), kind, id)
      {
        TallyScript(rows, next, kind, id);
      }
      KeptIsPlaceable(rows, next);
      TallyPlacements(Kept(rows, Ids(next)), next, 0, Removal, id);
      TallyPlacements(Kept(rows, Ids(next)), next, 0, Insertion, id);
      TallyPlacements(Kept(rows, Ids(next)), next, 0, Move, id);
      TallyPlacements(Kept(rows, Ids(next)), next, 0, Change, id);
      assert next[0..] == next;
    }
  }

  lemma {:induction false} TallyScript(rows: seq<Row>, next: seq<Row>, kind: Kind, id: string)
    requires Unique(rows) && rows != next
    ensures Tally(Script(rows, next), kind, id)
         == One(kind == Removal && id in Ids(rows) && id !in Ids(next))
          + Tally(Placements(Kept(rows, Ids(next)), next, 0), kind, id)
  {
    var removals := Removals(rows, Ids(next), |rows|);
    var placements := Placements(Kept(rows, Ids(next)), next, 0);
    TallyRemovals(rows, Ids(next), |rows|, kind, id);
    assert rows[..|rows|] == rows;
    TallyAppend(removals, placements, kind, id);
    TallyAppend(removals + placements, [TabsChanged], kind, id);
  }

  lemma {:induction false} KeptHasSameSurvivors(rows: seq<Row>, next: seq<Row>, id: string)
    requires Unique(rows) && Unique(next)
    ensures var kept := Kept(rows, Ids(next));
      && (id in Ids(kept) <==> Survives(rows, next, id))
      && (Overtaken(kept, next, id) <==> Overtaken(rows, next, id))
      && (ValueDiffers(kept, next, id) <==> ValueDiffers(rows, next, id))
  {
    var kept := Kept(rows, Ids(next));
    KeptProperties(rows, Ids(next));
    forall y | Precedes(next, id, y)
      ensures Precedes(kept, y, id) <==> Precedes(rows, y, id)
    {
      PrecedesMembers(next, id, y);
      PrecedesKept(rows, Ids(next), y, id);
    }
    if Survives(rows, next, id) {
      var k := IndexOf(kept, id);
      assert kept[k] in rows;
      var i :| 0 <= i < |rows| && rows[i] == kept[k];
      IndexOfUnique(rows, i);
    }
  }
}
