/** The ring buffer of samples. Cyclic indices refine the window of the last samples
    accepted since the buffer was last cleared. */
module CircularBuffer {
  import opened Common
  import opened Samples
  import opened Regression

  /** The capacity of a buffer. */
  type Capacity = n: int | 0 < n witness 1

  lemma ModWrap(x: int, n: int)
    requires 0 < n && 0 <= x < 2 * n
    ensures x % n == if x < n then x else x - n
  {
  }

  /** The number of samples between two cyclic indices. */
  function CyclicCount(front: int, back: int, n: int): int {
    if front == -1 then 0 else if front >= back then front - back + 1 else front - back + n + 1
  }

  /** The cyclic index of the `i`-th newest sample. */
  function CyclicIndex(front: int, n: int, i: int): int {
    if front - i >= 0 then front - i else front - i + n
  }

  /** The cells from `front` back to `back` hold the last samples accepted, newest first. */
  ghost predicate Refines(front: int, back: int, values: seq<real>, times: seq<Word>, accepted: seq<Sample>)
    requires |values| == |times|
  {
    var n := |values|;
    && -1 <= front < n && -1 <= back < n
    && (front == -1 <==> back == -1) && (front == -1 <==> accepted == [])
    && CyclicCount(front, back, n) == (if |accepted| < n then |accepted| else n)
    && forall i :: 0 <= i < CyclicCount(front, back, n) ==>
         Holds(values, times, CyclicIndex(front, n, i), accepted[|accepted| - 1 - i])
  }

  predicate Holds(values: seq<real>, times: seq<Word>, cell: int, s: Sample) {
    0 <= cell < |values| && |values| == |times| && values[cell] == s.value && times[cell] == s.time
  }

  ghost predicate Extremes(low: real, high: real, accepted: seq<Sample>) {
    accepted != [] ==> IsSmallest(low, accepted) && IsLargest(high, accepted)
  }

  function NextIndex(i: int, n: int): int {
    if i + 1 < n then i + 1 else 0
  }

  /** Writing the next cell keeps the refinement; a full buffer gives up its oldest cell. */
  lemma StoreRefines(front: int, back: int, values: seq<real>, times: seq<Word>, accepted: seq<Sample>, s: Sample)
    requires |values| == |times| > 0 && Refines(front, back, values, times, accepted)
    ensures var n := |values|;
            var f := NextIndex(front, n);
            && -1 <= front < n && -1 <= back < n && 0 <= f < n && (back == -1 <==> accepted == [])
            && (f == back ==> |accepted| >= n && values[f] == accepted[|accepted| - n].value)
            && (f != back ==> |accepted| < n)
            && Refines(f, if f == back || back == -1 then NextIndex(back, n) else back,
                       values[f := s.value], times[f := s.time], accepted + [s])
  {
    var n := |values|;
    var f := NextIndex(front, n);
    var b := if f == back || back == -1 then NextIndex(back, n) else back;
    var v, t, after := values[f := s.value], times[f := s.time], accepted + [s];
    if f == back {
      assert Holds(values, times, CyclicIndex(front, n, n - 1), accepted[|accepted| - n]);
    }
    forall i | 0 <= i < CyclicCount(f, b, n)
      ensures Holds(v, t, CyclicIndex(f, n, i), after[|after| - 1 - i])
    {
      if i > 0 {
        assert CyclicIndex(f, n, i) == CyclicIndex(front, n, i - 1) != f;
        assert Holds(values, times, CyclicIndex(front, n, i - 1), accepted[|accepted| - 1 - (i - 1)]);
      }
    }
  }

  class CircularBuffer {
    const bufsize: Capacity
    const dataType: DataType
    const values: array<real>
    const times: array<Word>
    var front: int
    var back: int
    var total: real
    var smallest: real
    var largest: real
    var zeroTime: Word
    var frozen: bool
    /** The samples kept and the clears so far, and every sample since the last clear. */
    ghost var ops: seq<Op>
    ghost var accepted: seq<Sample>

    /** What the buffer holds, oldest first. */
    ghost function Window(): seq<Sample>
      reads this
    {
      Last(accepted, bufsize)
    }

    /** The buffer's indices, arrays and running total agree with the window. */
    ghost predicate Stored()
      reads this, values, times
    {
      && values.Length == bufsize && times.Length == bufsize
      && Refines(front, back, values[..], times[..], accepted)
      && accepted == Accepted(ops)
      && total == Sum(Last(accepted, bufsize)) + Lost(ops, bufsize)
    }

    ghost predicate Valid()
      reads this, values, times
    {
      Stored() && Extremes(smallest, largest, accepted)
    }

    constructor (size: Capacity, dt: DataType)
      ensures Valid() && fresh(values) && fresh(times)
      ensures bufsize == size && dataType == dt && accepted == [] && ops == [] && !frozen
    {
      bufsize := size;
      dataType := dt;
      front := -1;
      back := -1;
      values := new real[size](_ => 0.0);
      times := new Word[size](_ => 0);
      total := 0.0;
      smallest, largest := 0.0, 0.0;
      zeroTime := 0;
      frozen := false;
      ops, accepted := [], [];
    }

    method Clear()
      requires Valid()
      modifies this`front, this`back, this`accepted, this`ops
      ensures Valid() && accepted == [] && ops == old(ops) + [Reset]
    {
      front := -1;
      back := -1;
      OpAppend(ops, Reset, bufsize);
      ops, accepted := ops + [Reset], [];
    }

    /** Accepts a sample unless the buffer is frozen; the oldest gives way when it is full. */
    method AddSample(time: Long, value: real)
      requires Valid()
      modifies this`front, this`back, this`total, this`smallest, this`largest, this`zeroTime,
               this`accepted, this`ops, values, times
      ensures Valid()
      ensures var sample := Sample(ToWord(time), Convert(dataType, value));
              && accepted == (if frozen then old(accepted) else old(accepted) + [sample])
              && ops == (if frozen then old(ops) else old(ops) + [Add(sample)])
              && StoredAs(dataType, value, sample.value)
      ensures zeroTime == if !frozen && old(zeroTime) == 0 then ToWord(time) else old(zeroTime)
    {
      ConvertStores(dataType, value);
      if frozen {
        return;
      }
      var val := Convert(dataType, value);
      if zeroTime == 0 {
        zeroTime := ToWord(time);
      }
      Accept(ToWord(time), val);
    }

    method Accept(time: Word, val: real)
      requires Valid()
      modifies this`front, this`back, this`total, this`smallest, this`largest, this`accepted, this`ops, values, times
      ensures Valid() && accepted == old(accepted) + [Sample(time, val)]
      ensures ops == old(ops) + [Add(Sample(time, val))]
    {
      assert back == -1 <==> accepted == [];
      hide Refines, IsSmallest, IsLargest, Accepted, Lost;
      ExtremesAppend(smallest, largest, accepted, Sample(time, val));
      if back == -1 || val < smallest {
        smallest := val;
      }
      if back == -1 || val > largest {
        largest := val;
      }
      Store(time, val);
    }

    /** Reduces an index modulo the capacity. */
    method Wrap(x: int) returns (r: int)
      requires 0 <= x
      ensures 0 <= r < bufsize
      ensures x < 2 * bufsize ==> r == if x < bufsize then x else x - bufsize
    {
      if x < 2 * bufsize {
        ModWrap(x, bufsize);
      }
      r := x % bufsize;
    }

    method Store(time: Word, val: real)
      requires Stored()
      modifies this`front, this`back, this`total, this`accepted, this`ops, values, times
      ensures Stored() && accepted == old(accepted) + [Sample(time, val)]
      ensures ops == old(ops) + [Add(Sample(time, val))]
    {
      hide Refines, Sum, Last, Accepted, Lost;
      Shape();
      OpAppend(ops, Add(Sample(time, val)), bufsize);
      WindowAppend(accepted, Sample(time, val), bufsize);
      StoreRefines(front, back, values[..], times[..], accepted, Sample(time, val));
      front := Wrap(front + 1);
      if front == back {
        total := total - values[front];
      }
      if front == back || back == -1 {
        back := Wrap(back + 1);
      }
      total := total + val;
      values[front] := val;
      times[front] := time;
      assert values[..] == old(values[..])[front := val] && times[..] == old(times[..])[front := time];
      accepted, ops := accepted + [Sample(time, val)], ops + [Add(Sample(time, val))];
    }

    lemma Shape()
      requires Stored()
      ensures values.Length == times.Length == bufsize
      ensures -1 <= front < bufsize && -1 <= back < bufsize && (front == -1 <==> accepted == [])
    {
    }

    /** The cell of the `i`-th newest sample. */
    lemma CellOf(i: int)
      requires Valid() && 0 <= i < |Window()|
      ensures var cell := CyclicIndex(front, bufsize, i);
              && 0 <= cell < bufsize == values.Length == times.Length
              && values[cell] == Window()[|Window()| - 1 - i].value
              && times[cell] == Window()[|Window()| - 1 - i].time
      ensures i == |Window()| - 1 <==> CyclicIndex(front, bufsize, i) == back
      ensures Window()[|Window()| - 1 - i] == accepted[|accepted| - 1 - i]
    {
    }

    /** The cell of the sample at position `p` of the window, oldest first. */
    ghost function CellAt(p: int): int
      reads this
    {
      CyclicIndex(front, bufsize, |Window()| - 1 - p)
    }

    lemma CellOfAge(p: int)
      requires Valid() && 0 <= p < |Window()|
      ensures 0 <= CellAt(p) < bufsize == values.Length == times.Length
      ensures values[CellAt(p)] == Window()[p].value && times[CellAt(p)] == Window()[p].time
      ensures p == 0 <==> CellAt(p) == back
      ensures p == |Window()| - 1 ==> CellAt(p) == front
      ensures p > 0 ==> CellAt(p) == if CellAt(p - 1) + 1 < bufsize then CellAt(p - 1) + 1 else 0
      ensures p > 0 ==> CellAt(p - 1) == if CellAt(p) == 0 then bufsize - 1 else CellAt(p) - 1
    {
    }

    method Length() returns (length: int)
      requires Valid()
      ensures length == |Window()| == CyclicCount(front, back, bufsize)
    {
      if front == -1 {
        return 0;
      }
      var span := Wrap(front - back + bufsize);
      return span + 1;
    }

    /** The cell of the `i`-th newest sample; looking past the oldest gives the oldest. */
    method BufferIndexFor(i: int) returns (cell: int)
      requires Valid() && accepted != []
      ensures 0 <= cell < bufsize
      ensures 0 <= i ==> cell == CyclicIndex(front, bufsize, if i < |Window()| then i else |Window()| - 1)
    {
      Shape();
      hide Valid;
      var length := Length();
      CellOf(length - 1);
      if i >= length {
        return back;
      }
      cell := Wrap(front + bufsize - i);
    }

    method GetBufferValue(n: int) returns (value: real)
      requires Valid() && accepted != [] && 0 <= n
      ensures value == Window()[if n < |Window()| then |Window()| - 1 - n else 0].value
    {
      hide Valid;
      var cell := BufferIndexFor(n);
      CellOf(if n < |Window()| then n else |Window()| - 1);
      return values[cell];
    }

    method GetBufferTime(n: int) returns (time: Long)
      requires Valid() && accepted != [] && 0 <= n
      ensures time == ToLong(Window()[if n < |Window()| then |Window()| - 1 - n else 0].time)
    {
      hide Valid;
      var cell := BufferIndexFor(n);
      CellOf(if n < |Window()| then n else |Window()| - 1);
      return ToLong(times[cell]);
    }

    method GetTime(n: int) returns (time: Word)
      requires Valid() && front + bufsize - n >= 0
      ensures 0 <= n < |Window()| ==> time == Window()[|Window()| - 1 - n].time
    {
      Shape();
      hide Valid;
      if 0 <= n < |Window()| {
        CellOf(n);
      }
      var cell := Wrap(front + bufsize - n);
      return times[cell];
    }

    /** The estimate of the value at time `t`. */
    method GetBufferValueAt(t: Word) returns (value: real)
      requires Valid() && accepted != []
      ensures value == ValueAt(Window(), t)
    {
      Shape();
      hide Valid, Last, ValueAt, CellAt;
      var length := Length();
      var cell := OldestCell();
      CellOfAge(length - 1);
      if times[cell] >= t {
        return values[cell];
      }
      if t >= times[front] {
        return values[front];
      }
      value := ScanForward(t, cell);
    }

    /** The scan towards newer cells, from an oldest sample before `t` to the first at or
        after it, which exists because the newest is after `t`. */
    method ScanForward(t: Word, oldest: int) returns (value: real)
      requires Valid() && |Window()| > 1 && oldest == CellAt(0)
      requires Window()[0].time < t < Window()[|Window()| - 1].time
      ensures value == ValueAt(Window(), t)
    {
      hide Valid, Window, ValueAt, CellAt;
      ghost var w := Window();
      ghost var age := 1;
      var next, time, val := StepForward(oldest, 0);
      while time < t
        invariant 1 <= age < |w| && next == CellAt(age) && time == w[age].time && val == w[age].value
        invariant forall k :: 0 <= k < age ==> w[k].time < t
        decreases |w| - age
      {
        next, time, val := StepForward(next, age);
        age := age + 1;
      }
      ValueAtBetween(w, t, age);
      return val;
    }

    /** From the cell of the sample at position `p` to the next newer one and its sample. */
    method StepForward(cell: int, ghost p: int) returns (newer: int, time: Word, value: real)
      requires Valid() && 0 <= p < |Window()| - 1 && cell == CellAt(p)
      ensures newer == CellAt(p + 1)
      ensures value == Window()[p + 1].value && time == Window()[p + 1].time
    {
      CellOfAge(p);
      CellOfAge(p + 1);
      newer := Wrap(cell + 1);
      time, value := times[newer], values[newer];
    }

    method OldestCell() returns (cell: int)
      requires Valid() && accepted != []
      ensures 0 <= cell < bufsize == values.Length == times.Length && cell == CellAt(0)
      ensures values[cell] == Window()[0].value && times[cell] == Window()[0].time
    {
      var length := Length();
      CellOfAge(0);
      cell := BufferIndexFor(length - 1);
    }

    /** From the cell of the sample at position `p` to that of the next older one. */
    method StepBack(cell: int, ghost p: int) returns (older: int)
      requires Valid() && 0 < p < |Window()| && cell == CellAt(p)
      ensures 0 <= older < bufsize == values.Length && older == CellAt(p - 1)
      ensures values[older] == Window()[p - 1].value
      ensures older == back <==> p == 1
    {
      CellOfAge(p);
      CellOfAge(p - 1);
      older := cell - 1;
      if older == -1 {
        older := bufsize - 1;
      }
    }

    /** Goes one sample back and compares it with the newest value. */
    method CompareBack(cell: int, current: real, amount: real, ghost n: nat) returns (older: int, reached: bool)
      requires Valid() && n < |Window()| - 1 && cell == CellAt(|Window()| - 1 - n)
      requires current == Window()[|Window()| - 1].value
      ensures older == CellAt(|Window()| - 2 - n) && (older == back <==> n == |Window()| - 2)
      ensures reached <==> Movement(Window(), n + 1) >= amount
    {
      hide Valid, Window, CellAt, Movement, Last;
      older := StepBack(cell, |Window()| - 1 - n);
      MovementIs(Window(), n + 1, current, values[older]);
      reached := Abs(current - values[older]) >= amount;
    }

    method NewestCell() returns (cell: int, current: real)
      requires Valid() && accepted != []
      ensures |Window()| > 0 && cell == CellAt(|Window()| - 1) && (cell == back <==> |Window()| == 1)
      ensures current == Window()[|Window()| - 1].value
    {
      Shape();
      CellOfAge(|Window()| - 1);
      return front, values[front];
    }

    /** How many samples back a movement of `amount` is first seen, within `maxLen`. */
    method FindMovement(amount: real, maxLen: int) returns (n: int)
      requires Valid() && accepted != []
      ensures var bound := if maxLen < |Window()| - 1 then maxLen else |Window()| - 1;
              && 0 <= n < |Window()| && (n <= bound || n == 0)
              && (n == 0 || Still(Window(), n - 1, amount))
              && (if n < bound then n > 0 && Movement(Window(), n) >= amount
                  else n > 0 ==> Movement(Window(), n) >= amount || Still(Window(), n, amount))
    {
      hide Valid, Window, CellAt, Movement, Still;
      var cell, current := NewestCell();
      ghost var w := Window();
      StillAtOnce(w, amount);
      n := 0;
      while cell != back && n < maxLen
        invariant 0 <= n < |w| && (n <= maxLen || n == 0)
        invariant cell == CellAt(|w| - 1 - n) && (cell == back <==> n == |w| - 1)
        invariant Still(w, n, amount) && (n == 0 || Still(w, n - 1, amount))
        decreases |w| - n
      {
        var reached;
        cell, reached := CompareBack(cell, current, amount, n);
        n := n + 1;
        if reached {
          return;
        }
        StillNext(w, n - 1, amount);
      }
    }

    /** The exact minimum and maximum of the window. */
    method FindRange() returns (low: real, high: real)
      requires Valid() && accepted != []
      ensures IsSmallest(low, Window()) && IsLargest(high, Window())
      ensures smallest <= low <= high <= largest
    {
      Shape();
      hide Valid, Last, CellAt, IsSmallest, IsLargest;
      ghost var w := Window();
      var cell := front;
      CellOfAge(|w| - 1);
      high := values[cell];
      low := values[cell];
      ghost var first := |w| - 1;
      RangeOfOne(w);
      while cell != back
        invariant 0 <= first < |w| && cell == CellAt(first) && (cell == back <==> first == 0)
        invariant IsSmallest(low, w[first..]) && IsLargest(high, w[first..])
        decreases first
      {
        RangeExtends(w, first, low, high);
        cell := StepBack(cell, first);
        first := first - 1;
        if high < values[cell] {
          high := values[cell];
        }
        if low > values[cell] {
          low := values[cell];
        }
      }
      assert w[0..] == w;
      WithinExtremes(low, high);
    }

    /** The recorded extremes are those of all samples since the clear, so they enclose
        the range of the window. */
    lemma WithinExtremes(low: real, high: real)
      requires Valid() && IsSmallest(low, Window()) && IsLargest(high, Window())
      ensures smallest <= low <= high <= largest
    {
    }

    /** The sum of the newest `n` samples, or of all of them when there are fewer. */
    method BufferSum(n: int) returns (sum: real)
      requires Valid() && 0 <= n
      ensures sum == Sum(Last(Window(), n))
    {
      hide Valid;
      var i := Length();
      if i > n {
        i := n;
      }
      sum := 0.0;
      ghost var summed := Last(Window(), n);
      ghost var length := i;
      assert summed[..0] == [];
      while i != 0
        invariant 0 <= i <= length == |summed|
        invariant sum == Sum(summed[..length - i])
        decreases i
      {
        i := i - 1;
        var value := GetBufferValue(i);
        SumAppend(summed[..length - 1 - i], summed[length - 1 - i]);
        assert summed[..length - i] == summed[..length - 1 - i] + [summed[length - 1 - i]];
        sum := sum + value;
      }
      assert summed[..length] == summed;
    }

    /** The least-squares slope of every sample but the newest, taken from the oldest. */
    method Slope() returns (m: real)
      requires Valid()
      ensures m == SumsOf(SlopePoints(Window())).Slope()
    {
      Shape();
      hide Valid, Last, Sums.Add, Sums.Slope, SumsOf, SlopePoints;
      ghost var w := Window();
      var length := Length();
      var n := length - 1;
      var t0 := GetTime(n);
      // The oldest sample is the origin: it is counted but adds nothing.
      var sums := if n > 0 then ORIGIN else NOTHING;
      SlopeStart(w);
      ghost var taken: nat := sums.n;
      var i := n - 1;
      while i > 0
        invariant taken <= |SlopePoints(w)| && sums == SumsOf(SlopePoints(w)[..taken])
        invariant if n > 0 then 0 <= i && taken == n - i else taken == 0 && i < 0
      {
        var p := RelativePoint(i, n, t0);
        SlopeStep(w, taken, p);
        sums := sums.Add(p);
        taken := taken + 1;
        i := i - 1;
      }
      assert SlopePoints(w)[..taken] == SlopePoints(w);
      m := SlopeOf(n, sums);
    }

    /** The sample `i` back, relative to the oldest, which is `n` back. */
    method RelativePoint(i: int, n: int, t0: Word) returns (p: Point)
      requires Valid() && 0 <= i < n == |Window()| - 1 && t0 == Window()[0].time && i > 0
      ensures n - i < |SlopePoints(Window())| && p == SlopePoints(Window())[n - i]
    {
      hide Valid, Window, SlopePoints;
      var time, value := SampleBack(i);
      var _, oldest := SampleBack(n);
      p := Point((time - t0) as real, value - oldest);
      SlopePointIs(Window(), n - i);
    }

    /** The time and value of the sample `i` back. */
    method SampleBack(i: int) returns (time: Word, value: real)
      requires Valid() && 0 <= i < |Window()|
      ensures time == Window()[|Window()| - 1 - i].time && value == Window()[|Window()| - 1 - i].value
    {
      Shape();
      CellOf(i);
      hide Valid, Last;
      time := GetTime(i);
      value := GetBufferValue(i);
    }

    /** The running total is the sum of the window and of what the clears took out of it:
        without a clear it is the sum of the window. */
    lemma TotalIsSum()
      requires Valid()
      ensures total == Sum(Window()) + Lost(ops, bufsize)
      ensures (forall i :: 0 <= i < |ops| ==> ops[i].Add?) ==> total == Sum(Window())
    {
      if forall i :: 0 <= i < |ops| ==> ops[i].Add? { NothingLost(ops, bufsize); }
    }
  }

  lemma OpAppend(ops: seq<Op>, op: Op, n: nat)
    ensures Accepted(ops + [op]) == if op.Add? then Accepted(ops) + [op.sample] else []
    ensures Lost(ops + [op], n) == Lost(ops, n) + if op.Reset? then Sum(Last(Accepted(ops), n)) else 0.0
  {
    assert (ops + [op])[..|ops|] == ops;
  }

  /** A full window gives up its oldest sample, any other just grows. */
  lemma WindowAppend(accepted: seq<Sample>, s: Sample, n: nat)
    requires n > 0
    ensures Last(accepted + [s], n) ==
            (if |accepted| < n then Last(accepted, n) else Last(accepted, n)[1..]) + [s]
    ensures Sum(Last(accepted + [s], n)) ==
            Sum(Last(accepted, n)) - (if |accepted| < n then 0.0 else accepted[|accepted| - n].value) + s.value
  {
    var w := Last(accepted, n);
    var kept := if |accepted| < n then w else w[1..];
    assert Last(accepted + [s], n) == kept + [s];
    SumAppend(kept, s);
  }

  lemma RangeOfOne(w: seq<Sample>)
    requires w != []
    ensures IsSmallest(w[|w| - 1].value, w[|w| - 1..]) && IsLargest(w[|w| - 1].value, w[|w| - 1..])
  {
  }

  /** Taking in the next older sample updates the extremes as the scan does. */
  lemma RangeExtends(w: seq<Sample>, first: int, low: real, high: real)
    requires 0 < first < |w| && IsSmallest(low, w[first..]) && IsLargest(high, w[first..])
    ensures IsSmallest(if low > w[first - 1].value then w[first - 1].value else low, w[first - 1..])
    ensures IsLargest(if high < w[first - 1].value then w[first - 1].value else high, w[first - 1..])
  {
  }

  lemma ExtremesAppend(low: real, high: real, accepted: seq<Sample>, s: Sample)
    requires Extremes(low, high, accepted)
    ensures Extremes(if accepted == [] || s.value < low then s.value else low,
                     if accepted == [] || s.value > high then s.value else high, accepted + [s])
  {
    var after := accepted + [s];
    assert after[|accepted|] == s;
    if accepted != [] {
      var i :| 0 <= i < |accepted| && accepted[i].value == low;
      var k :| 0 <= k < |accepted| && accepted[k].value == high;
      assert after[i] == accepted[i] && after[k] == accepted[k];
    }
  }

  /** Every sample of the window but the newest, relative to the oldest. */
  function SlopePoints(w: seq<Sample>): (points: seq<Point>)
    ensures |points| == if w == [] then 0 else |w| - 1
  {
    if w == [] then []
    else seq(|w| - 1, i requires 0 <= i < |w| - 1 =>
                        Point((w[i].time - w[0].time) as real, w[i].value - w[0].value))
  }

  lemma SlopePointIs(w: seq<Sample>, k: int)
    requires 0 <= k < |w| - 1
    ensures k < |SlopePoints(w)|
    ensures SlopePoints(w)[k] == Point((w[k].time - w[0].time) as real, w[k].value - w[0].value)
  {
  }

  const NOTHING: Sums := Sums(0, 0.0, 0.0, 0.0, 0.0, 0.0)
  const ORIGIN: Sums := Sums(1, 0.0, 0.0, 0.0, 0.0, 0.0)

  lemma SlopeStart(w: seq<Sample>)
    ensures |SlopePoints(w)| == if w == [] then 0 else |w| - 1
    ensures if |w| > 1 then SumsOf(SlopePoints(w)[..1]) == ORIGIN else SumsOf(SlopePoints(w)[..0]) == NOTHING
  {
  }

  lemma SlopeStep(w: seq<Sample>, k: nat, p: Point)
    requires k < |SlopePoints(w)| && SlopePoints(w)[k] == p
    ensures SumsOf(SlopePoints(w)[..k + 1]) == SumsOf(SlopePoints(w)[..k]).Add(p)
  {
    hide Sums.Add;
    assert SlopePoints(w)[..k + 1][..k] == SlopePoints(w)[..k];
  }

  lemma Flat(n: real)
    ensures n * 0.0 - 0.0 * 0.0 == 0.0
  {
  }

  method SlopeOf(n: int, sums: Sums) returns (m: real)
    requires n == sums.n || (n <= 0 && sums == NOTHING)
    ensures m == sums.Slope()
  {
    if sums == NOTHING {
      Flat(n as real);
      Flat(0.0);
    }
    var denominator := n as real * sums.xx - sums.x * sums.x;
    m := 0.0;
    if denominator != 0.0 {
      m := (n as real * sums.xy - sums.x * sums.y) / denominator;
    }
  }

  /** On samples of one line whose times do not all coincide, the slope is exactly the
      line's coefficient. */
  lemma SlopeOfLinearSamples(w: seq<Sample>, c: real, b: real)
    requires forall i :: 0 <= i < |w| - 1 ==> w[i].value == c * w[i].time as real + b
    requires exists i, k :: 0 <= i < k < |w| - 1 && w[i].time != w[k].time
    ensures SumsOf(SlopePoints(w)).Slope() == c
  {
    var points := SlopePoints(w);
    forall i | 0 <= i < |points| ensures points[i].y == c * points[i].x {
      Distribute(c, w[i].time as real, w[0].time as real);
    }
    var i, k :| 0 <= i < k < |w| - 1 && w[i].time != w[k].time;
    assert points[i].x != points[k].x;
    SlopeOfLine(points, c);
  }

  lemma Distribute(c: real, a: real, b: real)
    ensures c * a - c * b == c * (a - b)
  {
  }
}
