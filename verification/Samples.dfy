/** Samples and the plain sequences of them that the ring buffer stands for. */
module Samples {
  import opened Common

  datatype Sample = Sample(time: Word, value: real)

  datatype DataType = Int16 | UInt16 | Int32 | UInt32 | Double | Str

  function ToWord(t: Long): Word { if t < 0 then t + UINT64_SPAN else t }

  function ToLong(w: Word): Long { if w < UINT64_SPAN / 2 then w else w - UINT64_SPAN }

  function Truncate(r: real): int { if r >= 0.0 then r.Floor else -(-r).Floor }

  /** The value stored for a sample: 16-bit types keep the truncated low 16 bits. */
  function Convert(dataType: DataType, value: real): real {
    match dataType
    case Int16 => ((Truncate(value) + 0x8000) % 0x1_0000 - 0x8000) as real
    case UInt16 => (Truncate(value) % 0x1_0000) as real
    case _ => value
  }

  /** Conversion keeps every value its type can hold and always lands in the type's range. */
  lemma ConvertInRange(dataType: DataType, value: real, whole: int)
    ensures (&& value == whole as real
             && (dataType == Int16 ==> -0x8000 <= whole < 0x8000)
             && (dataType == UInt16 ==> 0 <= whole < 0x1_0000)) ==> Convert(dataType, value) == value
    ensures dataType == Int16 ==> -0x8000 as real <= Convert(dataType, value) < 0x8000 as real
    ensures dataType == UInt16 ==> 0.0 <= Convert(dataType, value) < 0x1_0000 as real
  {
    if value == whole as real { assert Truncate(value) == whole; }
  }

  /** The stored number is the whole part of the value, towards zero. */
  predicate WholePart(value: real, stored: real) {
    && stored == stored.Floor as real
    && (value >= 0.0 ==> stored <= value < stored + 1.0)
    && (value < 0.0 ==> stored - 1.0 < value <= stored <= 0.0)
  }

  /** The value is one whose whole part a 16-bit type holds. */
  predicate FitsIn(dataType: DataType, value: real) {
    && (dataType == Int16 ==> -32769.0 < value < 32768.0)
    && (dataType == UInt16 ==> -1.0 < value < 65536.0)
  }

  /** What is stored of a value: all of it, or its whole part if the type has 16 bits. */
  predicate StoredAs(dataType: DataType, value: real, stored: real) {
    if dataType == Int16 || dataType == UInt16 then FitsIn(dataType, value) ==> WholePart(value, stored)
    else stored == value
  }

  lemma ConvertStores(dataType: DataType, value: real)
    ensures StoredAs(dataType, value, Convert(dataType, value))
  {
  }

  /** A time reads back as it was added. */
  lemma TimeReadsBack(t: Long)
    ensures ToLong(ToWord(t)) == t && (t >= 0 ==> ToWord(t) == t) && (t < 0 ==> ToWord(t) == t + UINT64_SPAN)
  {
  }

  function Sum(samples: seq<Sample>): real {
    if samples == [] then 0.0 else samples[0].value + Sum(samples[1..])
  }

  lemma {:induction false} SumAppend(samples: seq<Sample>, s: Sample)
    ensures Sum(samples + [s]) == Sum(samples) + s.value
  {
    if samples != [] {
      SumAppend(samples[1..], s);
      assert (samples + [s])[1..] == samples[1..] + [s];
    }
  }

  // ---- runs ----

  /** What a buffer is asked to do: keep a sample, or forget the samples it has. */
  datatype Op = Add(sample: Sample) | Reset

  /** The samples since the last reset. */
  function Accepted(ops: seq<Op>): seq<Sample> {
    if ops == [] then []
    else
      match ops[|ops| - 1]
      case Add(s) => Accepted(ops[..|ops| - 1]) + [s]
      case Reset => []
  }

  /** What the resets of a run took out of a window of `n` samples. */
  function Lost(ops: seq<Op>, n: nat): real {
    if ops == [] then 0.0
    else
      var before := ops[..|ops| - 1];
      Lost(before, n) + if ops[|ops| - 1].Reset? then Sum(Last(Accepted(before), n)) else 0.0
  }

  lemma {:induction false} NothingLost(ops: seq<Op>, n: nat)
    requires forall i :: 0 <= i < |ops| ==> ops[i].Add?
    ensures Lost(ops, n) == 0.0
  {
    if ops != [] { NothingLost(ops[..|ops| - 1], n); }
  }

  /** The last `n` elements, or all of them when there are fewer. */
  function Last(samples: seq<Sample>, n: nat): (last: seq<Sample>)
    ensures |last| == if |samples| < n then |samples| else n
  {
    if |samples| < n then samples else samples[|samples| - n..]
  }

  predicate IsSmallest(low: real, samples: seq<Sample>) {
    && (exists i :: 0 <= i < |samples| && samples[i].value == low)
    && forall i :: 0 <= i < |samples| ==> low <= samples[i].value
  }

  predicate IsLargest(high: real, samples: seq<Sample>) {
    && (exists i :: 0 <= i < |samples| && samples[i].value == high)
    && forall i :: 0 <= i < |samples| ==> samples[i].value <= high
  }

  /** The first position whose time is at or after `t`, or the length if there is none. */
  function FirstAtOrAfter(samples: seq<Sample>, t: Word): (k: nat)
    ensures k <= |samples|
    ensures k < |samples| ==> samples[k].time >= t
    ensures forall i :: 0 <= i < k ==> samples[i].time < t
  {
    if samples == [] || samples[0].time >= t then 0 else 1 + FirstAtOrAfter(samples[1..], t)
  }

  /** The estimate of the value at time `t` over samples in age order. */
  function ValueAt(samples: seq<Sample>, t: Word): real
    requires samples != []
  {
    if samples[0].time >= t then samples[0].value
    else if t >= samples[|samples| - 1].time then samples[|samples| - 1].value
    else samples[FirstAtOrAfter(samples, t)].value
  }

  predicate Ascending(col: seq<Sample>) {
    forall i, k :: 0 <= i < k < |col| ==> col[i].time <= col[k].time
  }

  predicate StrictlyAscending(col: seq<Sample>) {
    forall i, k :: 0 <= i < k < |col| ==> col[i].time < col[k].time
  }

  /** With times that increase, the value is that of the one sample at or after `t` whose
      predecessor, if any, is before `t`, and of the newest when every sample is before `t`. */
  lemma ValueAtStep(samples: seq<Sample>, t: Word, k: nat)
    requires k < |samples| && StrictlyAscending(samples)
    requires k > 0 ==> samples[k - 1].time < t
    requires t <= samples[k].time || k == |samples| - 1
    ensures ValueAt(samples, t) == samples[k].value
  {
    var last := samples[|samples| - 1];
    if 0 < k && t < last.time {
      ValueAtBetween(samples, t, k);
    }
  }

  /** Between the ends, the value is that of the first sample at or after `t`. */
  lemma ValueAtBetween(samples: seq<Sample>, t: Word, k: nat)
    requires 0 < k < |samples| && samples[|samples| - 1].time > t
    requires samples[k].time >= t && forall i :: 0 <= i < k ==> samples[i].time < t
    ensures ValueAt(samples, t) == samples[k].value
  {
  }

  /** The distance between the newest value and the one `k` samples back. */
  function Movement(samples: seq<Sample>, k: int): real
    requires 0 <= k < |samples|
  {
    Abs(samples[|samples| - 1].value - samples[|samples| - 1 - k].value)
  }

  /** Up to `n` samples back the movement has not reached the amount. */
  predicate Still(samples: seq<Sample>, n: nat, amount: real)
    requires n < |samples|
  {
    forall k :: 0 < k <= n ==> Movement(samples, k) < amount
  }

  lemma StillAtOnce(samples: seq<Sample>, amount: real)
    requires samples != []
    ensures Still(samples, 0, amount)
  {
  }

  lemma StillNext(samples: seq<Sample>, n: nat, amount: real)
    requires n + 1 < |samples| && Still(samples, n, amount) && Movement(samples, n + 1) < amount
    ensures Still(samples, n + 1, amount)
  {
  }

  lemma MovementIs(samples: seq<Sample>, k: int, newest: real, older: real)
    requires 0 <= k < |samples|
    requires newest == samples[|samples| - 1].value && older == samples[|samples| - 1 - k].value
    ensures Movement(samples, k) == Abs(newest - older)
  {
  }

  function Abs(r: real): (a: real)
    ensures a >= 0.0 && (a == r || a == -r)
  {
    if r < 0.0 then -r else r
  }
}
