/**
 * The greedy row packing of crad-calendar.jsx, used by both the week/biweekly lanes and
 * the monthly week lanes: events are taken in order, each goes to the lowest-indexed row
 * whose occupied columns it does not touch, or to a new row, and its columns are then
 * marked occupied in that row.
 *
 * `Pack` is the specification; `AssignRows` is the component's loop nest, with
 * `rowOccupancy` the array of arrays of occupied columns it pushes into.
 */
module RowPacking {
  import opened Sequences

  /** The inclusive column range `[startCol, endCol]` of one event in a lane. */
  datatype Bar = Bar(startCol: int, endCol: int)

  predicate Covers(b: Bar, col: int) {
    b.startCol <= col <= b.endCol
  }

  /** Two bars share a column. */
  predicate SharesColumn(a: Bar, b: Bar) {
    a.startCol <= a.endCol && b.startCol <= b.endCol && a.startCol <= b.endCol && b.startCol <= a.endCol
  }

  lemma SharesColumnMeaning(a: Bar, b: Bar)
    ensures SharesColumn(a, b) <==> exists c :: Covers(a, c) && Covers(b, c)
  {
    if SharesColumn(a, b) {
      var c := if a.startCol < b.startCol then b.startCol else a.startCol;
      assert Covers(a, c) && Covers(b, c);
    }
  }

  /** The columns `lo, lo + 1, ..., hi` in the order the marking loop pushes them. */
  function Range(lo: int, hi: int): (r: seq<int>)
    ensures |r| == if hi < lo then 0 else hi - lo + 1
    ensures forall c :: c in r <==> lo <= c <= hi
    decreases hi - lo
  {
    if hi < lo then [] else Range(lo, hi - 1) + [hi]
  }

  /** None of the bar's columns is occupied in this row. */
  predicate Fits(occupied: seq<int>, b: Bar) {
    forall c :: b.startCol <= c <= b.endCol ==> c !in occupied
  }

  /** The first row at or after `from` that the bar fits in, or `|rows|` (a new row). */
  function FirstFit(rows: seq<seq<int>>, b: Bar, from: nat): (r: nat)
    requires from <= |rows|
    ensures from <= r <= |rows|
    ensures r < |rows| ==> Fits(rows[r], b)
    ensures forall k :: from <= k < r ==> !Fits(rows[k], b)
    decreases |rows| - from
  {
    if from == |rows| then |rows|
    else if Fits(rows[from], b) then from
    else FirstFit(rows, b, from + 1)
  }

  /** The assigned row of each event, and the occupied columns of each row. */
  datatype Packing = Packing(rowIndex: seq<nat>, rowOccupancy: seq<seq<int>>)

  /** Place one bar: first-fit row, creating it if needed, then mark its columns. */
  function Place(p: Packing, b: Bar): Packing {
    var row := FirstFit(p.rowOccupancy, b, 0);
    var rows := if row == |p.rowOccupancy| then p.rowOccupancy + [[]] else p.rowOccupancy;
    Packing(p.rowIndex + [row], rows[row := rows[row] + Range(b.startCol, b.endCol)])
  }

  /** The packing of the bars, placed in the given order. */
  function Pack(bars: seq<Bar>): (p: Packing)
    ensures |p.rowIndex| == |bars| && |p.rowOccupancy| <= |bars|
    ensures forall i :: 0 <= i < |bars| ==> p.rowIndex[i] <= i
  {
    if |bars| == 0 then Packing([], [])
    else Place(Pack(bars[..|bars| - 1]), bars[|bars| - 1])
  }

  // ---------------------------------------------------------------------------
  // What the packing guarantees
  // ---------------------------------------------------------------------------

  /** No two events in one row share a column. */
  predicate NoSharedColumn(bars: seq<Bar>, rowIndex: seq<nat>)
    requires |rowIndex| == |bars|
  {
    forall i, j :: 0 <= i < j < |bars| && rowIndex[i] == rowIndex[j] ==> !SharesColumn(bars[i], bars[j])
  }

  /** Every row below an event's row is blocked by an earlier event in that row. */
  predicate LowestFreeRow(bars: seq<Bar>, rowIndex: seq<nat>)
    requires |rowIndex| == |bars|
  {
    forall i, r :: 0 <= i < |bars| && 0 <= r < rowIndex[i] ==> BlockedBefore(bars, rowIndex, i, r)
  }

  /** An event placed before event `i` in row `r` shares a column with it. */
  predicate BlockedBefore(bars: seq<Bar>, rowIndex: seq<nat>, i: int, r: int)
    requires |rowIndex| == |bars| && 0 <= i < |bars|
  {
    exists j :: 0 <= j < i && rowIndex[j] == r && SharesColumn(bars[i], bars[j])
  }

  /** Rows are numbered 0 .. rowCount - 1 and each of them holds at least one event. */
  predicate RowsUsed(rowIndex: seq<nat>, rowCount: nat) {
    && (forall i :: 0 <= i < |rowIndex| ==> rowIndex[i] < rowCount)
    && (forall r :: 0 <= r < rowCount ==> RowHolds(rowIndex, r))
  }

  predicate RowHolds(rowIndex: seq<nat>, r: int) {
    exists i :: 0 <= i < |rowIndex| && rowIndex[i] == r
  }

  /** `rowOccupancy[r]` holds exactly the columns of the events placed in row `r`. */
  ghost predicate OccupancyMeans(bars: seq<Bar>, p: Packing)
    requires |p.rowIndex| == |bars|
  {
    forall r, c :: 0 <= r < |p.rowOccupancy| ==>
      (c in p.rowOccupancy[r] <==> exists i :: 0 <= i < |bars| && p.rowIndex[i] == r && Covers(bars[i], c))
  }

  lemma {:induction false} PackInvariant(bars: seq<Bar>)
    ensures RowsUsed(Pack(bars).rowIndex, |Pack(bars).rowOccupancy|)
    ensures |Pack(bars).rowOccupancy| <= |bars|
    ensures OccupancyMeans(bars, Pack(bars))
    ensures NoSharedColumn(bars, Pack(bars).rowIndex)
    ensures LowestFreeRow(bars, Pack(bars).rowIndex)
  {
    if |bars| > 0 {
      var n := |bars| - 1;
      var front, b := bars[..n], bars[n];
      PackInvariant(front);
      var prev := Pack(front);
      var p := Pack(bars);
      var row := FirstFit(prev.rowOccupancy, b, 0);
      assert p.rowIndex == prev.rowIndex + [row];
      assert forall i :: 0 <= i < n ==> bars[i] == front[i];
      PlaceOccupancy(front, b, prev, row, p);
      PlaceNoShared(front, b, prev, row, p);
      PlaceLowest(front, b, prev, row, p);
      assert bars == front + [b];
    }
  }

  lemma PlaceOccupancy(front: seq<Bar>, b: Bar, prev: Packing, row: nat, p: Packing)
    requires |prev.rowIndex| == |front| && RowsUsed(prev.rowIndex, |prev.rowOccupancy|)
    requires OccupancyMeans(front, prev)
    requires row == FirstFit(prev.rowOccupancy, b, 0) && p == Place(prev, b)
    ensures RowsUsed(p.rowIndex, |p.rowOccupancy|)
    ensures OccupancyMeans(front + [b], p)
  {
    var bars := front + [b];
    var n := |front|;
    assert p.rowIndex[n] == row;
    forall r, c | 0 <= r < |p.rowOccupancy|
      ensures c in p.rowOccupancy[r] <==> exists i :: 0 <= i < |bars| && p.rowIndex[i] == r && Covers(bars[i], c)
    {
      if r == row {
        if c in p.rowOccupancy[r] && !Covers(b, c) {
          var i :| 0 <= i < n && prev.rowIndex[i] == r && Covers(front[i], c);
          assert p.rowIndex[i] == r && bars[i] == front[i];
        }
        if exists i :: 0 <= i < |bars| && p.rowIndex[i] == r && Covers(bars[i], c) {
          var i :| 0 <= i < |bars| && p.rowIndex[i] == r && Covers(bars[i], c);
          if i < n {
            assert prev.rowIndex[i] == r && Covers(front[i], c);
          }
        }
      } else {
        if c in p.rowOccupancy[r] {
          var i :| 0 <= i < n && prev.rowIndex[i] == r && Covers(front[i], c);
          assert p.rowIndex[i] == r && bars[i] == front[i];
        }
        if exists i :: 0 <= i < |bars| && p.rowIndex[i] == r && Covers(bars[i], c) {
          var i :| 0 <= i < |bars| && p.rowIndex[i] == r && Covers(bars[i], c);
          assert i < n && prev.rowIndex[i] == r && Covers(front[i], c);
        }
      }
    }
    forall r | 0 <= r < |p.rowOccupancy| ensures RowHolds(p.rowIndex, r) {
      if r < |prev.rowOccupancy| {
        assert RowHolds(prev.rowIndex, r);
        var i :| 0 <= i < |prev.rowIndex| && prev.rowIndex[i] == r;
        assert p.rowIndex[i] == r;
      } else {
        assert p.rowIndex[n] == r;
      }
    }
  }

  lemma PlaceNoShared(front: seq<Bar>, b: Bar, prev: Packing, row: nat, p: Packing)
    requires |prev.rowIndex| == |front| && RowsUsed(prev.rowIndex, |prev.rowOccupancy|)
    requires OccupancyMeans(front, prev) && NoSharedColumn(front, prev.rowIndex)
    requires row == FirstFit(prev.rowOccupancy, b, 0) && p == Place(prev, b)
    ensures NoSharedColumn(front + [b], p.rowIndex)
  {
    var bars := front + [b];
    var n := |front|;
    forall i, j | 0 <= i < j < |bars| && p.rowIndex[i] == p.rowIndex[j] ensures !SharesColumn(bars[i], bars[j]) {
      if j == n {
        assert prev.rowIndex[i] == row && row < |prev.rowOccupancy| && bars[i] == front[i];
        forall c | Covers(b, c) ensures !Covers(front[i], c) {
          assert c !in prev.rowOccupancy[row];
        }
        SharesColumnMeaning(front[i], b);
      } else {
        assert prev.rowIndex[i] == prev.rowIndex[j];
      }
    }
  }

  lemma PlaceLowest(front: seq<Bar>, b: Bar, prev: Packing, row: nat, p: Packing)
    requires |prev.rowIndex| == |front|
    requires OccupancyMeans(front, prev) && LowestFreeRow(front, prev.rowIndex)
    requires row == FirstFit(prev.rowOccupancy, b, 0) && p == Place(prev, b)
    ensures LowestFreeRow(front + [b], p.rowIndex)
  {
    var bars := front + [b];
    var n := |front|;
    forall i, r | 0 <= i < |bars| && 0 <= r < p.rowIndex[i]
      ensures BlockedBefore(bars, p.rowIndex, i, r)
    {
      if i == n {
        assert !Fits(prev.rowOccupancy[r], b);
        var c :| b.startCol <= c <= b.endCol && c in prev.rowOccupancy[r];
        var j :| 0 <= j < n && prev.rowIndex[j] == r && Covers(front[j], c);
        assert p.rowIndex[j] == r && bars[j] == front[j];
        assert SharesColumn(bars[i], bars[j]);
      } else {
        assert bars[i] == front[i] && p.rowIndex[i] == prev.rowIndex[i];
        assert BlockedBefore(front, prev.rowIndex, i, r);
        var j :| 0 <= j < i && prev.rowIndex[j] == r && SharesColumn(front[i], front[j]);
        assert p.rowIndex[j] == r && bars[j] == front[j];
      }
    }
  }

  /**
   * The guarantees of the packing: no two events of a row share a column, each event is
   * in the lowest row not blocked by an earlier event, and the rows used are exactly
   * 0 .. |rowOccupancy| - 1, no more than there are events; so `|rowOccupancy|` is the
   * largest row index plus one.
   */
  lemma PackGuarantees(bars: seq<Bar>)
    ensures NoSharedColumn(bars, Pack(bars).rowIndex)
    ensures LowestFreeRow(bars, Pack(bars).rowIndex)
    ensures RowsUsed(Pack(bars).rowIndex, |Pack(bars).rowOccupancy|)
    ensures |Pack(bars).rowOccupancy| <= |bars|
    ensures |bars| > 0 ==> exists i :: 0 <= i < |bars| && Pack(bars).rowIndex[i] == |Pack(bars).rowOccupancy| - 1
  {
    PackInvariant(bars);
    if |bars| > 0 {
      var p := Pack(bars);
      assert p.rowIndex[0] < |p.rowOccupancy|;
      assert RowHolds(p.rowIndex, |p.rowOccupancy| - 1);
    }
  }

  // ---------------------------------------------------------------------------
  // The component's loops
  // ---------------------------------------------------------------------------

  /** The `canFit` scan: stop at the first of the bar's columns already occupied. */
  method CanFit(occupied: seq<int>, b: Bar) returns (canFit: bool)
    ensures canFit == Fits(occupied, b)
  {
    canFit := true;
    var col := b.startCol;
    while col <= b.endCol
      invariant b.startCol <= col
      invariant forall c :: b.startCol <= c < col ==> c !in occupied
      decreases b.endCol - col
    {
      if col in occupied {
        canFit := false;
        break;
      }
      col := col + 1;
    }
  }

  /**
   * The row scan: `assignedRow` starts at 0, takes the first row that fits, and becomes
   * `rowOccupancy.length` when the last row does not fit.
   */
  method FindRow(rowOccupancy: seq<seq<int>>, b: Bar) returns (assignedRow: nat)
    ensures assignedRow == FirstFit(rowOccupancy, b, 0)
    ensures assignedRow <= |rowOccupancy|
  {
    assignedRow := 0;
    var row := 0;
    while row < |rowOccupancy|
      invariant 0 <= row <= |rowOccupancy|
      invariant forall k :: 0 <= k < row ==> !Fits(rowOccupancy[k], b)
      invariant assignedRow == if row > 0 && row == |rowOccupancy| then row else 0
    {
      var canFit := CanFit(rowOccupancy[row], b);
      if canFit {
        assignedRow := row;
        break;
      } else if row == |rowOccupancy| - 1 {
        assignedRow := row + 1;
      }
      row := row + 1;
    }
    FirstFitAfterScan(rowOccupancy, b, 0, assignedRow);
  }

  lemma {:induction false} FirstFitAfterScan(rows: seq<seq<int>>, b: Bar, from: nat, r: nat)
    requires from <= r <= |rows|
    requires forall k :: from <= k < r ==> !Fits(rows[k], b)
    requires r < |rows| ==> Fits(rows[r], b)
    ensures FirstFit(rows, b, from) == r
    decreases |rows| - from
  {
    if from < r {
      FirstFitAfterScan(rows, b, from + 1, r);
    }
  }

  /** The inner `for` loop: push each of the bar's columns, in order, onto the row. */
  method PushColumns(occupied: seq<int>, b: Bar) returns (row: seq<int>)
    ensures row == occupied + Range(b.startCol, b.endCol)
  {
    row := occupied;
    var col := b.startCol;
    assert occupied + Range(b.startCol, col - 1) == occupied;
    while col <= b.endCol
      invariant b.startCol <= col <= b.endCol + 1 || col == b.startCol
      invariant row == occupied + Range(b.startCol, col - 1)
      decreases b.endCol - col
    {
      assert occupied + Range(b.startCol, col) == occupied + Range(b.startCol, col - 1) + [col];
      row := row + [col];
      col := col + 1;
    }
  }

  /**
   * The `forEach` over the sorted events: find a row, create it if it does not exist,
   * push the event's columns into it and record the event's `rowIndex`.
   */
  method AssignRows(bars: seq<Bar>) returns (rowIndex: seq<nat>, rowOccupancy: seq<seq<int>>)
    ensures Packing(rowIndex, rowOccupancy) == Pack(bars)
    ensures |rowIndex| == |bars|
    ensures NoSharedColumn(bars, rowIndex)
    ensures LowestFreeRow(bars, rowIndex)
    ensures RowsUsed(rowIndex, |rowOccupancy|) && |rowOccupancy| <= |bars|
  {
    rowIndex, rowOccupancy := [], [];
    var i := 0;
    while i < |bars|
      invariant 0 <= i <= |bars|
      invariant Packing(rowIndex, rowOccupancy) == Pack(bars[..i])
    {
      var b := bars[i];
      var assignedRow := FindRow(rowOccupancy, b);
      if assignedRow == |rowOccupancy| {
        rowOccupancy := rowOccupancy + [[]];
      }
      var filled := PushColumns(rowOccupancy[assignedRow], b);
      rowOccupancy := rowOccupancy[assignedRow := filled];
      rowIndex := rowIndex + [assignedRow];
      assert bars[..i + 1][..i] == bars[..i];
      assert Packing(rowIndex, rowOccupancy) == Place(Pack(bars[..i]), b);
      i := i + 1;
    }
    assert bars[..|bars|] == bars;
    PackGuarantees(bars);
  }

  /** The three column ranges [0,2], [1,3], [4,5]: the first two overlap, the third joins row 0. */
  lemma PackExample()
    ensures Pack([Bar(0, 2), Bar(1, 3), Bar(4, 5)]).rowIndex == [0, 1, 0]
  {
    var bars := [Bar(0, 2), Bar(1, 3), Bar(4, 5)];
    assert bars[..2] == [Bar(0, 2), Bar(1, 3)];
    assert bars[..2][..1] == [Bar(0, 2)];
    assert [Bar(0, 2)][..0] == [];
    var p1 := Pack([Bar(0, 2)]);
    assert Pack([Bar(0, 2)][..0]) == Packing([], []);
    assert FirstFit([], Bar(0, 2), 0) == 0;
    assert Range(0, 2) == [0, 1, 2];
    assert p1 == Place(Packing([], []), Bar(0, 2));
    var empty: seq<seq<int>> := [];
    var none: seq<int> := [];
    assert none + [0, 1, 2] == [0, 1, 2];
    assert empty + [none] == [none] && [none][0 := none + [0, 1, 2]] == [[0, 1, 2]];
    assert p1.rowOccupancy == [[0, 1, 2]];
    assert 1 in [0, 1, 2];
    assert !Fits([0, 1, 2], Bar(1, 3));
    var p2 := Pack(bars[..2]);
    assert p2.rowIndex == [0, 1];
    assert Fits(p2.rowOccupancy[0], Bar(4, 5));
  }

  // ---------------------------------------------------------------------------
  // Lanes: packed items with their rows
  // ---------------------------------------------------------------------------

  /** A lane entry: an item and the `rowIndex` the packing wrote into it. */
  datatype Placed<S> = Placed(item: S, rowIndex: nat)

  function Items<S>(lane: seq<Placed<S>>): (items: seq<S>)
    ensures |items| == |lane| && forall k :: 0 <= k < |lane| ==> items[k] == lane[k].item
  {
    seq(|lane|, k requires 0 <= k < |lane| => lane[k].item)
  }

  function Rows<S>(lane: seq<Placed<S>>): (rows: seq<nat>)
    ensures |rows| == |lane| && forall k :: 0 <= k < |lane| ==> rows[k] == lane[k].rowIndex
  {
    seq(|lane|, k requires 0 <= k < |lane| => lane[k].rowIndex)
  }

  /** Each item with the row the packing gave it. */
  function WithRows<S>(items: seq<S>, rowIndex: seq<nat>): (lane: seq<Placed<S>>)
    requires |rowIndex| == |items|
    ensures Items(lane) == items && Rows(lane) == rowIndex
  {
    seq(|items|, k requires 0 <= k < |items| => Placed(items[k], rowIndex[k]))
  }
}
