/** The export of several time series as rows: at each step the earliest pending time is
    written, with the upcoming value of every series, and the series at that time advance. */
module Export {
  import opened Common
  import opened Samples
  import opened CircularBuffer

  datatype Row = Row(time: Word, cells: seq<Option<real>>)

  /** Series in age order, and for each the position of its next sample to be written. */
  predicate Fits(cols: seq<seq<Sample>>, next: seq<nat>) {
    |next| == |cols| && forall j :: 0 <= j < |cols| ==> next[j] <= |cols[j]|
  }

  predicate PendingAt(cols: seq<seq<Sample>>, next: seq<nat>, j: nat)
    requires Fits(cols, next)
  {
    j < |cols| && next[j] < |cols[j]|
  }

  /** The earliest pending time among the first `n` series. */
  function Earliest(cols: seq<seq<Sample>>, next: seq<nat>, n: nat): (t: Option<Word>)
    requires Fits(cols, next) && n <= |cols|
    ensures t.Some? <==> exists j :: 0 <= j < n && PendingAt(cols, next, j)
    ensures t.Some? ==> exists j :: 0 <= j < n && PendingAt(cols, next, j) && cols[j][next[j]].time == t.value
    ensures t.Some? ==> forall j :: 0 <= j < n && PendingAt(cols, next, j) ==> t.value <= cols[j][next[j]].time
  {
    if n == 0 then None
    else
      var before := Earliest(cols, next, n - 1);
      if !PendingAt(cols, next, n - 1) then before
      else
        var time := cols[n - 1][next[n - 1]].time;
        if before.Some? && before.value <= time then before else Some(time)
  }

  function Cell(col: seq<Sample>, next: nat): Option<real>
    requires next <= |col|
  {
    if next < |col| then Some(col[next].value)
    else if col != [] then Some(col[|col| - 1].value)
    else None
  }

  function RowAt(cols: seq<seq<Sample>>, next: seq<nat>, time: Word): (row: Row)
    requires Fits(cols, next)
    ensures row.time == time && |row.cells| == |cols|
  {
    Row(time, seq(|cols|, j requires 0 <= j < |cols| => Cell(cols[j], next[j])))
  }

  function Advance(cols: seq<seq<Sample>>, next: seq<nat>, time: Word): (after: seq<nat>)
    requires Fits(cols, next)
    ensures Fits(cols, after)
    ensures forall j :: 0 <= j < |cols| ==>
              after[j] == if PendingAt(cols, next, j) && cols[j][next[j]].time == time then next[j] + 1 else next[j]
  {
    seq(|cols|, j requires 0 <= j < |cols| =>
                  if PendingAt(cols, next, j) && cols[j][next[j]].time == time then next[j] + 1 else next[j])
  }

  /** The samples of the first `n` series still to be written. */
  function Remaining(cols: seq<seq<Sample>>, next: seq<nat>, n: nat): nat
    requires Fits(cols, next) && n <= |cols|
  {
    if n == 0 then 0 else Remaining(cols, next, n - 1) + (|cols[n - 1]| - next[n - 1])
  }

  lemma {:induction false} AdvanceRemaining(cols: seq<seq<Sample>>, next: seq<nat>, time: Word, n: nat)
    requires Fits(cols, next) && n <= |cols|
    ensures Remaining(cols, Advance(cols, next, time), n) <= Remaining(cols, next, n)
    ensures (exists j :: 0 <= j < n && PendingAt(cols, next, j) && cols[j][next[j]].time == time) ==>
              Remaining(cols, Advance(cols, next, time), n) < Remaining(cols, next, n)
  {
    if n > 0 { AdvanceRemaining(cols, next, time, n - 1); }
  }

  /** The rows of the merge from a position on. */
  function Merge(cols: seq<seq<Sample>>, next: seq<nat>): seq<Row>
    requires Fits(cols, next)
    decreases Remaining(cols, next, |cols|)
  {
    var time := Earliest(cols, next, |cols|);
    if time == None then []
    else
      AdvanceRemaining(cols, next, time.value, |cols|);
      [RowAt(cols, next, time.value)] + Merge(cols, Advance(cols, next, time.value))
  }

  function Start(cols: seq<seq<Sample>>): (next: seq<nat>)
    ensures Fits(cols, next)
    ensures forall j :: 0 <= j < |next| ==> next[j] == 0
  {
    seq(|cols|, _ => 0)
  }

  /** The oldest time of the first series that has samples, or zero. */
  function FirstTime(cols: seq<seq<Sample>>): Word {
    if cols == [] then 0 else if cols[0] != [] then cols[0][0].time else FirstTime(cols[1..])
  }

  /** What is written: nothing without series, every sample for a single series, and the
      merge for several unless the first time found is zero. */
  function Export(cols: seq<seq<Sample>>): seq<Row> {
    if |cols| == 1 then seq(|cols[0]|, k requires 0 <= k < |cols[0]| => Row(cols[0][k].time, [Some(cols[0][k].value)]))
    else if FirstTime(cols) == 0 then []
    else Merge(cols, Start(cols))
  }

  // ---- what the rows say ----

  /** Every row carries the time of some sample still pending. */
  lemma {:induction false} MergeTimes(cols: seq<seq<Sample>>, next: seq<nat>)
    requires Fits(cols, next)
    ensures forall r :: 0 <= r < |Merge(cols, next)| ==> IsSampleTime(cols, next, Merge(cols, next)[r].time)
    decreases Remaining(cols, next, |cols|)
  {
    MergeUnfolds(cols, next);
    var time := Earliest(cols, next, |cols|);
    if time.Some? {
      EarliestIsSample(cols, next);
      hide Merge, Remaining, Advance, Earliest, IsSampleTime;
      var after := Advance(cols, next, time.value);
      MergeTimes(cols, after);
      var rows, rest := Merge(cols, next), Merge(cols, after);
      forall r | 0 <= r < |rows| ensures IsSampleTime(cols, next, rows[r].time) {
        if r > 0 {
          assert rows[r] == rest[r - 1];
          StillSampleTime(cols, next, time.value, rows[r].time);
        }
      }
    }
  }

  lemma EarliestIsSample(cols: seq<seq<Sample>>, next: seq<nat>)
    requires Fits(cols, next) && Earliest(cols, next, |cols|).Some?
    ensures IsSampleTime(cols, next, Earliest(cols, next, |cols|).value)
  {
    var time := Earliest(cols, next, |cols|).value;
    var j :| 0 <= j < |cols| && PendingAt(cols, next, j) && cols[j][next[j]].time == time;
    assert Pends(cols, next, j, next[j]);
  }

  /** What is pending after a row was pending before it. */
  lemma StillSampleTime(cols: seq<seq<Sample>>, next: seq<nat>, row: Word, time: Word)
    requires Fits(cols, next) && IsSampleTime(cols, Advance(cols, next, row), time)
    ensures IsSampleTime(cols, next, time)
  {
    var j, k :| Pends(cols, Advance(cols, next, row), j, k) && cols[j][k].time == time;
    assert Pends(cols, next, j, k);
  }

  predicate Pends(cols: seq<seq<Sample>>, next: seq<nat>, j: int, k: int)
    requires Fits(cols, next)
  {
    0 <= j < |cols| && next[j] <= k < |cols[j]|
  }

  ghost predicate IsSampleTime(cols: seq<seq<Sample>>, next: seq<nat>, time: Word)
    requires Fits(cols, next)
  {
    exists j, k :: Pends(cols, next, j, k) && cols[j][k].time == time
  }

  lemma MergeUnfolds(cols: seq<seq<Sample>>, next: seq<nat>)
    requires Fits(cols, next)
    ensures var time := Earliest(cols, next, |cols|);
            if time == None then Merge(cols, next) == []
            else
              && Remaining(cols, Advance(cols, next, time.value), |cols|) < Remaining(cols, next, |cols|)
              && Merge(cols, next) ==
                 [RowAt(cols, next, time.value)] + Merge(cols, Advance(cols, next, time.value))
  {
    var time := Earliest(cols, next, |cols|);
    if time.Some? { AdvanceRemaining(cols, next, time.value, |cols|); }
  }

  /** The row on which sample `k` of series `j` is written. */
  lemma {:induction false} MergeWrites(cols: seq<seq<Sample>>, next: seq<nat>, j: nat, k: nat) returns (r: nat)
    requires Fits(cols, next) && Pends(cols, next, j, k)
    ensures var rows := Merge(cols, next);
            r < |rows| && rows[r].time == cols[j][k].time
            && |rows[r].cells| == |cols| && rows[r].cells[j] == Some(cols[j][k].value)
    decreases Remaining(cols, next, |cols|)
  {
    hide Merge, Remaining;
    var time := Earliest(cols, next, |cols|);
    assert PendingAt(cols, next, j);
    MergeUnfolds(cols, next);
    if k == next[j] && cols[j][k].time == time.value {
      r := 0;
    } else {
      var rest := MergeWrites(cols, Advance(cols, next, time.value), j, k);
      r := rest + 1;
    }
  }

  /** After a row the earliest pending time is no earlier, and later for strict series. */
  lemma EarliestAdvances(cols: seq<seq<Sample>>, next: seq<nat>)
    requires Fits(cols, next) && Earliest(cols, next, |cols|).Some?
    requires forall j :: 0 <= j < |cols| ==> Ascending(cols[j])
    ensures var time := Earliest(cols, next, |cols|).value;
            var after := Earliest(cols, Advance(cols, next, time), |cols|);
            && (after.Some? ==> time <= after.value)
            && (after.Some? && (forall j :: 0 <= j < |cols| ==> StrictlyAscending(cols[j])) ==> time < after.value)
  {
  }

  predicate RowsOrdered(rows: seq<Row>, strictly: bool) {
    forall r, s :: 0 <= r < s < |rows| ==>
      rows[r].time <= rows[s].time && (strictly ==> rows[r].time < rows[s].time)
  }

  lemma PrependOrdered(row: Row, rows: seq<Row>, strictly: bool)
    requires RowsOrdered(rows, strictly)
    requires rows != [] ==> row.time <= rows[0].time && (strictly ==> row.time < rows[0].time)
    ensures RowsOrdered([row] + rows, strictly)
  {
  }

  /** Row times never decrease when no series does, and strictly increase when every
      series does. */
  lemma {:induction false} RowsAscend(cols: seq<seq<Sample>>, next: seq<nat>, strictly: bool)
    requires Fits(cols, next) && forall j :: 0 <= j < |cols| ==> Ascending(cols[j])
    requires strictly ==> forall j :: 0 <= j < |cols| ==> StrictlyAscending(cols[j])
    ensures RowsOrdered(Merge(cols, next), strictly)
    decreases Remaining(cols, next, |cols|)
  {
    MergeUnfolds(cols, next);
    hide Merge, Remaining, Ascending, StrictlyAscending;
    var time := Earliest(cols, next, |cols|);
    if time.Some? {
      hide RowsOrdered;
      var after := Advance(cols, next, time.value);
      RowsAscend(cols, after, strictly);
      EarliestAdvances(cols, next);
      MergeUnfolds(cols, after);
      PrependOrdered(RowAt(cols, next, time.value), Merge(cols, after), strictly);
    }
  }

  /** The value a series has on a row: that of its first sample at or after the row's
      time, or of its newest. */
  function Lookup(col: seq<Sample>, time: Word): Option<real> {
    if col == [] then None else Some(ValueAt(col, time))
  }

  /** Every sample already written is older than every pending one. */
  ghost predicate WrittenBefore(cols: seq<seq<Sample>>, next: seq<nat>)
    requires Fits(cols, next)
  {
    forall j, k :: 0 <= j < |cols| && 0 <= k < next[j] && Earliest(cols, next, |cols|).Some? ==>
      cols[j][k].time < Earliest(cols, next, |cols|).value
  }


  /** For strictly ascending series every cell of every row is the value its series has at
      the row's time. */
  lemma {:induction false} CellsAreLookups(cols: seq<seq<Sample>>, next: seq<nat>)
    requires Fits(cols, next) && WrittenBefore(cols, next)
    requires forall j :: 0 <= j < |cols| ==> StrictlyAscending(cols[j])
    ensures forall r :: 0 <= r < |Merge(cols, next)| ==> IsLookupRow(cols, Merge(cols, next)[r])
    decreases Remaining(cols, next, |cols|)
  {
    hide Merge, Remaining, StrictlyAscending, IsLookupRow, WrittenBefore;
    MergeUnfolds(cols, next);
    var time := Earliest(cols, next, |cols|);
    if time.Some? {
      WrittenAdvances(cols, next);
      CellsAreLookups(cols, Advance(cols, next, time.value));
      RowIsLookups(cols, next);
    }
  }

  predicate IsLookupRow(cols: seq<seq<Sample>>, row: Row) {
    |row.cells| == |cols| && forall j :: 0 <= j < |cols| ==> row.cells[j] == Lookup(cols[j], row.time)
  }

  lemma CellIsLookup(col: seq<Sample>, next: nat, time: Word)
    requires next <= |col| && StrictlyAscending(col)
    requires 0 < next ==> col[next - 1].time < time
    requires next < |col| ==> time <= col[next].time
    ensures Cell(col, next) == Lookup(col, time)
  {
    hide ValueAt;
    if col != [] {
      ValueAtStep(col, time, if next < |col| then next else |col| - 1);
    }
  }

  lemma RowIsLookups(cols: seq<seq<Sample>>, next: seq<nat>)
    requires Fits(cols, next) && WrittenBefore(cols, next) && Earliest(cols, next, |cols|).Some?
    requires forall j :: 0 <= j < |cols| ==> StrictlyAscending(cols[j])
    ensures IsLookupRow(cols, RowAt(cols, next, Earliest(cols, next, |cols|).value))
  {
    var time := Earliest(cols, next, |cols|).value;
    forall j | 0 <= j < |cols|
      ensures next[j] < |cols[j]| ==> time <= cols[j][next[j]].time
      ensures 0 < next[j] ==> cols[j][next[j] - 1].time < time
    {
      assert next[j] < |cols[j]| ==> PendingAt(cols, next, j);
    }
    hide Earliest, StrictlyAscending, WrittenBefore, Cell, Lookup;
    forall j | 0 <= j < |cols| ensures Cell(cols[j], next[j]) == Lookup(cols[j], time) {
      CellIsLookup(cols[j], next[j], time);
    }
  }

  /** Once the row is written, every written sample is as old as the row or older. */
  lemma WrittenByRow(cols: seq<seq<Sample>>, next: seq<nat>, time: Word, j: nat, k: nat)
    requires Fits(cols, next) && j < |cols| && k < Advance(cols, next, time)[j]
    requires k < next[j] ==> cols[j][k].time < time
    ensures cols[j][k].time <= time
  {
  }

  lemma WrittenAdvances(cols: seq<seq<Sample>>, next: seq<nat>)
    requires Fits(cols, next) && WrittenBefore(cols, next) && Earliest(cols, next, |cols|).Some?
    requires forall j :: 0 <= j < |cols| ==> StrictlyAscending(cols[j])
    ensures WrittenBefore(cols, Advance(cols, next, Earliest(cols, next, |cols|).value))
  {
    var time := Earliest(cols, next, |cols|).value;
    var moved := Advance(cols, next, time);
    forall j | 0 <= j < |cols| ensures Ascending(cols[j]) { StrictAscends(cols[j]); }
    EarliestAdvances(cols, next);
    hide Earliest, Advance, StrictlyAscending, Ascending, PendingAt;
    var after := Earliest(cols, moved, |cols|);
    forall j, k | 0 <= j < |cols| && 0 <= k < moved[j] && after.Some? ensures cols[j][k].time < after.value {
      WrittenByRow(cols, next, time, j, k);
    }
  }

  lemma StrictAscends(col: seq<Sample>)
    requires StrictlyAscending(col)
    ensures Ascending(col)
  {
  }

  /** What several series are written as. */
  function General(cols: seq<seq<Sample>>): seq<Row> {
    if FirstTime(cols) == 0 then [] else Merge(cols, Start(cols))
  }

  lemma SingleStep(col: seq<Sample>, k: nat)
    requires k <= |col|
    ensures Merge([col], [k]) == if k == |col| then [] else [Export([col])[k]] + Merge([col], [k + 1])
  {
    hide Merge;
    MergeUnfolds([col], [k]);
    if k < |col| {
      assert PendingAt([col], [k], 0);
      assert Advance([col], [k], col[k].time) == [k + 1];
      assert RowAt([col], [k], col[k].time) == Export([col])[k];
    }
  }

  lemma {:induction false} SingleRows(col: seq<Sample>, k: nat)
    requires k <= |col|
    ensures Merge([col], [k]) == Export([col])[k..]
    decreases |col| - k
  {
    hide Merge, Advance, RowAt, Earliest;
    SingleStep(col, k);
    if k < |col| { SingleRows(col, k + 1); }
  }

  /** The single-series path writes what the merge writes; the two differ exactly for a
      series whose oldest time is zero, of which the general path would write nothing. */
  lemma SingleIsMerge(col: seq<Sample>)
    ensures Export([col]) == Merge([col], Start([col]))
    ensures Export([col]) == General([col]) <==> col == [] || col[0].time != 0
  {
    SingleRows(col, 0);
    assert Start([col]) == [0] && Export([col])[0..] == Export([col]);
    assert [col][1..] == [];
  }

  /** A table is written in full: all its rows carry sample times, and every sample of
      every series stands in its own column on a row with its own time. */
  lemma ExportComplete(cols: seq<seq<Sample>>, j: nat, k: nat) returns (r: nat)
    requires |cols| == 1 || FirstTime(cols) != 0
    requires j < |cols| && k < |cols[j]|
    ensures var rows := Export(cols);
            r < |rows| && rows[r].time == cols[j][k].time && |rows[r].cells| == |cols|
            && rows[r].cells[j] == Some(cols[j][k].value)
  {
    if |cols| == 1 {
      r := k;
    } else {
      r := MergeWrites(cols, Start(cols), j, k);
    }
  }

  /** Row `r` has the time and, in its column, the value of sample `k` of series `j`. */
  predicate Writes(cols: seq<seq<Sample>>, j: nat, k: nat, r: nat)
    requires j < |cols| && k < |cols[j]|
  {
    var rows := Export(cols);
    && r < |rows| && rows[r].time == cols[j][k].time && |rows[r].cells| == |cols|
    && rows[r].cells[j] == Some(cols[j][k].value)
  }

  ghost predicate IsWritten(cols: seq<seq<Sample>>, j: nat, k: nat)
    requires j < |cols| && k < |cols[j]|
  {
    exists r :: Writes(cols, j, k, r)
  }

  ghost predicate Complete(cols: seq<seq<Sample>>) {
    forall j: nat, k: nat :: j < |cols| && k < |cols[j]| ==> IsWritten(cols, j, k)
  }

  /** The first series that has samples starts at time zero. */
  predicate StartsAtZero(cols: seq<seq<Sample>>) {
    exists j :: 0 <= j < |cols| && IsFirst(cols, j) && cols[j][0].time == 0
  }

  predicate IsFirst(cols: seq<seq<Sample>>, j: nat)
    requires j < |cols|
  {
    cols[j] != [] && forall i :: 0 <= i < j ==> cols[i] == []
  }

  lemma {:induction false} FirstTimeIs(cols: seq<seq<Sample>>)
    ensures FirstTime(cols) == 0 <==> StartsAtZero(cols) || forall j :: 0 <= j < |cols| ==> cols[j] == []
  {
    if cols != [] {
      if cols[0] == [] {
        FirstTimeIs(cols[1..]);
        assert forall j :: 0 <= j < |cols| - 1 ==> cols[1..][j] == cols[j + 1];
        if j :| 0 <= j < |cols| && IsFirst(cols, j) && cols[j][0].time == 0 { assert IsFirst(cols[1..], j - 1); }
        if j :| 0 <= j < |cols[1..]| && IsFirst(cols[1..], j) && cols[1..][j][0].time == 0 {
          assert IsFirst(cols, j + 1);
        }
      } else {
        assert IsFirst(cols, 0);
      }
    }
  }

  /** Every sample is written exactly when there is one series, or the first series that has
      samples does not start at time zero; otherwise nothing is written. */
  lemma CompleteExactly(cols: seq<seq<Sample>>)
    ensures Complete(cols) <==> |cols| == 1 || !StartsAtZero(cols)
    ensures |cols| != 1 && StartsAtZero(cols) ==> Export(cols) == []
  {
    FirstTimeIs(cols);
    hide FirstTime, StartsAtZero;
    if |cols| == 1 || FirstTime(cols) != 0 {
      hide Export;
      forall j: nat, k: nat | j < |cols| && k < |cols[j]| ensures IsWritten(cols, j, k) {
        var r := ExportComplete(cols, j, k);
        assert Writes(cols, j, k, r);
      }
    } else if j: nat :| j < |cols| && cols[j] != [] {
      assert Export(cols) == [];
      assert !IsWritten(cols, j, 0);
    }
    SomeStart(cols);
  }

  lemma SomeStart(cols: seq<seq<Sample>>)
    ensures StartsAtZero(cols) ==> exists j :: 0 <= j < |cols| && cols[j] != []
  {
  }

  /** Two series of which the first starts at time zero are not written at all. */
  lemma ZeroStartIsLost()
    ensures var cols := [[Sample(0, 1.0)], [Sample(5, 2.0)]];
            Export(cols) == [] && !Complete(cols)
  {
    var cols := [[Sample(0, 1.0)], [Sample(5, 2.0)]];
    assert FirstTime(cols) == cols[0][0].time;
    CompleteExactly(cols);
  }

  /** The rows of strictly ascending series are ordered by time, each carries the time of a
      sample, and each cell is what `ValueAt` gives for its series at that time: with the
      completeness of the table this fixes every row. */
  lemma ExportMeaning(cols: seq<seq<Sample>>)
    requires forall j :: 0 <= j < |cols| ==> StrictlyAscending(cols[j])
    ensures RowsOrdered(Export(cols), true)
    ensures forall r :: 0 <= r < |Export(cols)| ==>
              IsLookupRow(cols, Export(cols)[r]) && IsSampleTime(cols, Start(cols), Export(cols)[r].time)
  {
    forall j | 0 <= j < |cols| ensures Ascending(cols[j]) { assert StrictlyAscending(cols[j]); }
    if |cols| == 1 {
      assert cols == [cols[0]];
      SingleIsMerge(cols[0]);
    }
    RowsAscend(cols, Start(cols), true);
    CellsAreLookups(cols, Start(cols));
    MergeTimes(cols, Start(cols));
  }

  // ---- the loop over ring buffers ----

  /** The buffers hold the series. */
  ghost predicate Hold(bufs: seq<CircularBuffer>, cols: seq<seq<Sample>>)
    reads bufs, set j | 0 <= j < |bufs| :: bufs[j].values, set j | 0 <= j < |bufs| :: bufs[j].times
  {
    |bufs| == |cols| && forall j :: 0 <= j < |bufs| ==> bufs[j].Valid() && bufs[j].Window() == cols[j]
  }

  /** How many of the first `n` series are not finished. */
  function Outstanding(cols: seq<seq<Sample>>, next: seq<nat>, n: nat): (count: nat)
    requires Fits(cols, next) && n <= |cols|
    ensures count > 0 <==> exists j :: 0 <= j < n && PendingAt(cols, next, j)
  {
    if n == 0 then 0 else Outstanding(cols, next, n - 1) + (if PendingAt(cols, next, n - 1) then 1 else 0)
  }

  /** `pos` counts down from the oldest sample of each buffer to -1. */
  predicate Positions(cols: seq<seq<Sample>>, next: seq<nat>, pos: seq<int>) {
    Fits(cols, next) && |pos| == |cols| && forall j :: 0 <= j < |cols| ==> pos[j] == |cols[j]| - 1 - next[j]
  }

  /** Reads the sample `pos` back. */
  method ReadSample(buf: CircularBuffer, pos: int) returns (sample: Sample)
    requires buf.Valid() && 0 <= pos < |buf.Window()|
    ensures sample == buf.Window()[|buf.Window()| - 1 - pos]
  {
    var time, value := buf.SampleBack(pos);
    sample := Sample(time, value);
  }

  lemma EarliestStep(cols: seq<seq<Sample>>, next: seq<nat>, n: nat)
    requires Fits(cols, next) && n < |cols|
    ensures Earliest(cols, next, n + 1) ==
            if !PendingAt(cols, next, n) then Earliest(cols, next, n)
            else if Earliest(cols, next, n).Some? && Earliest(cols, next, n).value <= cols[n][next[n]].time
            then Earliest(cols, next, n) else Some(cols[n][next[n]].time)
  {
  }

  lemma NonePending(cols: seq<seq<Sample>>, next: seq<nat>, n: nat)
    requires Fits(cols, next) && n <= |cols| && forall i :: 0 <= i < n ==> !PendingAt(cols, next, i)
    ensures Earliest(cols, next, n) == None
  {
  }

  lemma PendingIs(cols: seq<seq<Sample>>, next: seq<nat>, pos: seq<int>)
    requires Positions(cols, next, pos)
    ensures |pos| == |cols| && forall j :: 0 <= j < |cols| ==> (pos[j] == -1 <==> !PendingAt(cols, next, j))
  {
  }

  method ReadTime(bufs: seq<CircularBuffer>, pos: seq<int>, ghost cols: seq<seq<Sample>>, ghost next: seq<nat>, j: nat)
    returns (time: Word)
    requires Hold(bufs, cols) && Positions(cols, next, pos) && PendingAt(cols, next, j)
    ensures time == cols[j][next[j]].time
  {
    hide CircularBuffer.Valid, CircularBuffer.Window;
    var sample := ReadSample(bufs[j], pos[j]);
    time := sample.time;
  }

  method FirstPending(pos: seq<int>, ghost cols: seq<seq<Sample>>, ghost next: seq<nat>) returns (j: nat)
    requires Positions(cols, next, pos) && exists i :: 0 <= i < |cols| && PendingAt(cols, next, i)
    ensures j < |cols| && PendingAt(cols, next, j) && forall i :: 0 <= i < j ==> !PendingAt(cols, next, i)
  {
    PendingIs(cols, next, pos);
    hide PendingAt;
    j := 0;
    while j < |pos| && pos[j] == -1
      invariant j <= |pos| && forall i :: 0 <= i < j ==> !PendingAt(cols, next, i)
    {
      j := j + 1;
    }
    assert j < |pos|;
  }

  /** The earliest pending time, found from the first pending series and
      every later one. */
  method FindEarliest(bufs: seq<CircularBuffer>, pos: seq<int>, ghost cols: seq<seq<Sample>>, ghost next: seq<nat>)
    returns (earliest: Word)
    requires Hold(bufs, cols) && Positions(cols, next, pos)
    requires exists j :: 0 <= j < |cols| && PendingAt(cols, next, j)
    ensures Earliest(cols, next, |cols|) == Some(earliest)
  {
    hide Hold, Earliest;
    var j := FirstPending(pos, cols, next);
    earliest := ReadTime(bufs, pos, cols, next, j);
    FirstIsEarliest(cols, next, j);
    earliest := EarliestFrom(bufs, pos, cols, next, j + 1, earliest);
  }

  lemma FirstIsEarliest(cols: seq<seq<Sample>>, next: seq<nat>, j: nat)
    requires Fits(cols, next) && j < |cols| && PendingAt(cols, next, j)
    requires forall i :: 0 <= i < j ==> !PendingAt(cols, next, i)
    ensures Earliest(cols, next, j + 1) == Some(cols[j][next[j]].time)
  {
    hide Earliest;
    NonePending(cols, next, j);
    EarliestStep(cols, next, j);
  }

  /** Goes on from series `start`, with the earliest time of those before it. */
  method EarliestFrom(bufs: seq<CircularBuffer>, pos: seq<int>, ghost cols: seq<seq<Sample>>, ghost next: seq<nat>,
                      start: nat, before: Word)
    returns (earliest: Word)
    requires Hold(bufs, cols) && Positions(cols, next, pos) && start <= |cols|
    requires Earliest(cols, next, start) == Some(before)
    ensures Earliest(cols, next, |cols|) == Some(earliest)
  {
    hide CircularBuffer.Valid, CircularBuffer.Window, Earliest;
    earliest := before;
    for j := start to |bufs|
      invariant Earliest(cols, next, j) == Some(earliest)
    {
      EarliestStep(cols, next, j);
      if pos[j] != -1 {
        var time := ReadTime(bufs, pos, cols, next, j);
        if time < earliest {
          earliest := time;
        }
      }
    }
  }

  /** The cell of one series on a row, and whether the series is at the row's time. */
  method WriteCell(buf: CircularBuffer, pos: int, ghost col: seq<Sample>, ghost next: nat, time: Word)
    returns (cell: Option<real>, moves: bool)
    requires buf.Valid() && buf.Window() == col && next <= |col| && pos == |col| - 1 - next
    ensures cell == Cell(col, next)
    ensures moves <==> next < |col| && col[next].time == time
  {
    hide CircularBuffer.Valid, CircularBuffer.Window;
    if pos > -1 {
      var sample := ReadSample(buf, pos);
      return Some(sample.value), sample.time == time;
    }
    var length := buf.Length();
    if length != 0 {
      var newest := ReadSample(buf, 0);
      return Some(newest.value), false;
    }
    return None, false;
  }

  lemma NoneOutstanding(cols: seq<seq<Sample>>, next: seq<nat>, after: seq<nat>)
    requires Fits(cols, next) && Fits(cols, after)
    ensures Outstanding(cols, next, 0) == Outstanding(cols, after, 0) == 0
  {
  }

  lemma OutstandingStep(cols: seq<seq<Sample>>, next: seq<nat>, after: seq<nat>, n: nat)
    requires Fits(cols, next) && Fits(cols, after) && n < |cols|
    ensures Outstanding(cols, next, n + 1) - Outstanding(cols, next, n) == if next[n] < |cols[n]| then 1 else 0
    ensures Outstanding(cols, after, n + 1) - Outstanding(cols, after, n) == if after[n] < |cols[n]| then 1 else 0
  {
  }

  /** Writes the cells of one row and moves the series that are at its time. */
  method WriteCells(bufs: seq<CircularBuffer>, pos: seq<int>, outstanding: int, time: Word,
                    ghost cols: seq<seq<Sample>>, ghost next: seq<nat>)
    returns (cells: seq<Option<real>>, moved: seq<int>, left: int)
    requires Hold(bufs, cols) && Positions(cols, next, pos)
    requires outstanding == Outstanding(cols, next, |cols|)
    ensures cells == RowAt(cols, next, time).cells
    ensures Positions(cols, Advance(cols, next, time), moved)
    ensures left == Outstanding(cols, Advance(cols, next, time), |cols|)
  {
    hide CircularBuffer.Valid, CircularBuffer.Window, Cell, Outstanding, Advance;
    ghost var after := Advance(cols, next, time);
    NoneOutstanding(cols, next, after);
    cells, moved, left := [], pos, outstanding;
    var j := 0;
    while j < |bufs|
      invariant j <= |bufs| && |cells| == j && |moved| == |cols|
      invariant forall i :: 0 <= i < j ==> cells[i] == Cell(cols[i], next[i])
      invariant forall i :: 0 <= i < |cols| ==> moved[i] == |cols[i]| - 1 - (if i < j then after[i] else next[i])
      invariant left + Outstanding(cols, next, j) == outstanding + Outstanding(cols, after, j)
    {
      var cell, moves := WriteCell(bufs[j], pos[j], cols[j], next[j], time);
      OutstandingStep(cols, next, after, j);
      cells := cells + [cell];
      if moves {
        moved := moved[j := pos[j] - 1];
        if moved[j] == -1 {
          left := left - 1;
        }
      }
      j := j + 1;
    }
  }

  /** Saves the series: every row of `Export`, in order. */
  method SaveData(bufs: seq<CircularBuffer>, ghost cols: seq<seq<Sample>>) returns (rows: seq<Row>)
    requires Hold(bufs, cols)
    ensures rows == if cols == [] then [] else Export(cols)
  {
    hide CircularBuffer.Valid, CircularBuffer.Window;
    if bufs == [] {
      return [];
    }
    if |bufs| == 1 {
      rows := SaveSingle(bufs[0], cols[0]);
      assert cols == [cols[0]];
      return;
    }
    var t := FindFirstTime(bufs, cols);
    if t == 0 {
      return [];
    }
    rows := SaveMerged(bufs, cols);
  }

  method SaveSingle(buf: CircularBuffer, ghost col: seq<Sample>) returns (rows: seq<Row>)
    requires buf.Valid() && buf.Window() == col
    ensures rows == Export([col])
  {
    hide CircularBuffer.Valid, CircularBuffer.Window;
    rows := [];
    var n := buf.Length();
    while n > 0
      invariant 0 <= n <= |col|
      invariant rows == Export([col])[..|col| - n]
    {
      n := n - 1;
      var sample := ReadSample(buf, n);
      rows := rows + [Row(sample.time, [Some(sample.value)])];
      assert Export([col])[|col| - n - 1] == Row(sample.time, [Some(sample.value)]);
    }
  }

  method FindFirstTime(bufs: seq<CircularBuffer>, ghost cols: seq<seq<Sample>>) returns (t: Word)
    requires Hold(bufs, cols)
    ensures t == FirstTime(cols)
  {
    hide CircularBuffer.Valid, CircularBuffer.Window;
    t := 0;
    for j := 0 to |bufs|
      invariant t == 0 && FirstTime(cols) == FirstTime(cols[j..])
    {
      assert cols[j..][1..] == cols[j + 1..];
      var length := bufs[j].Length();
      if length != 0 {
        var oldest := ReadSample(bufs[j], length - 1);
        return oldest.time;
      }
    }
    assert cols[|bufs|..] == [];
  }

  /** The merge loop. `outstanding` counts the unfinished series, so a pending one is
      always found, and the samples left to write shrink with every row. */
  method SaveMerged(bufs: seq<CircularBuffer>, ghost cols: seq<seq<Sample>>) returns (rows: seq<Row>)
    requires Hold(bufs, cols)
    ensures rows == Merge(cols, Start(cols))
  {
    hide CircularBuffer.Valid, CircularBuffer.Window, Hold, Merge, Remaining, Advance, RowAt, Earliest, Positions;
    rows := [];
    ghost var next := Start(cols);
    var pos, outstanding := StartPositions(bufs, cols);
    while outstanding > 0
      invariant Hold(bufs, cols) && Fits(cols, next) && Positions(cols, next, pos)
      invariant outstanding == Outstanding(cols, next, |cols|)
      invariant rows + Merge(cols, next) == Merge(cols, Start(cols))
      decreases Remaining(cols, next, |cols|)
    {
      MergeUnfolds(cols, next);
      var row;
      row, pos, outstanding := WriteRow(bufs, pos, outstanding, cols, next);
      rows := rows + [row];
      next := Advance(cols, next, row.time);
    }
    MergeUnfolds(cols, next);
  }

  /** One row: the earliest pending time, with the series at that time moved on. */
  method WriteRow(bufs: seq<CircularBuffer>, pos: seq<int>, outstanding: int,
                  ghost cols: seq<seq<Sample>>, ghost next: seq<nat>)
    returns (row: Row, moved: seq<int>, left: int)
    requires Hold(bufs, cols) && Positions(cols, next, pos)
    requires outstanding == Outstanding(cols, next, |cols|) && outstanding > 0
    ensures Earliest(cols, next, |cols|) == Some(row.time) && row == RowAt(cols, next, row.time)
    ensures Positions(cols, Advance(cols, next, row.time), moved)
    ensures left == Outstanding(cols, Advance(cols, next, row.time), |cols|)
  {
    hide CircularBuffer.Valid, CircularBuffer.Window, Hold, Advance, Earliest;
    var earliest := FindEarliest(bufs, pos, cols, next);
    var cells;
    cells, moved, left := WriteCells(bufs, pos, outstanding, earliest, cols, next);
    row := Row(earliest, cells);
  }

  method StartPositions(bufs: seq<CircularBuffer>, ghost cols: seq<seq<Sample>>)
    returns (pos: seq<int>, outstanding: int)
    requires Hold(bufs, cols)
    ensures Positions(cols, Start(cols), pos) && outstanding == Outstanding(cols, Start(cols), |cols|)
  {
    hide CircularBuffer.Valid, CircularBuffer.Window, Outstanding;
    ghost var next := Start(cols);
    NoneOutstanding(cols, next, next);
    pos, outstanding := [], |bufs|;
    for j := 0 to |bufs|
      invariant |pos| == j && forall i :: 0 <= i < j ==> pos[i] == |cols[i]| - 1
      invariant outstanding == |bufs| - j + Outstanding(cols, next, j)
    {
      OutstandingStep(cols, next, next, j);
      var length := bufs[j].Length();
      pos := pos + [length - 1];
      if pos[j] == -1 {
        outstanding := outstanding - 1;
      }
    }
  }
}
