/** The numeric and alphabetic sequences BatchRenamer pairs with its files:
    __fix_stop, generate_n_seq and generate_a_seq, over Python's range(). */
module Sequences {
  import opened Results

  /** __fix_stop(start, stop, step): the range() bound meant to give `stop`
      items (stop is the number of files). With a positive step the bound
      lies just past item stop - 1 and not past item stop, so range() stops
      after exactly stop items; with a negative step it lies above item
      stop - 1, so a descending range() stops before reaching it. */
  function FixStop(start: int, stop: int, step: int): (r: int)
    ensures step >= 1 ==> start + (stop - 1) * step < r <= start + stop * step
    ensures step <= -1 && stop >= 1 ==> r > start + (stop - 1) * step
    ensures step == 1 ==> r == start + stop
  {
    assert stop * step == (stop - 1) * step + step;
    start + 1 + (stop - 1) * step
  }

  /** The items range(start, stop, step) yields, for a non-zero step:
      upward while below stop, downward while above it. Item k is
      start + k * step, every item is on the near side of stop, and the
      next one would not be. */
  function RangeFrom(start: int, stop: int, step: int): (r: seq<int>)
    requires step != 0
    ensures forall k :: 0 <= k < |r| ==> r[k] == start + k * step
    ensures forall k :: 0 <= k < |r| ==> if step > 0 then r[k] < stop else r[k] > stop
    ensures if step > 0 then start + |r| * step >= stop else start + |r| * step <= stop
    decreases if step > 0 then stop - start else start - stop
  {
    if (step > 0 && start < stop) || (step < 0 && start > stop) then
      var rest := RangeFrom(start + step, stop, step);
      ShiftedItems(start, step, rest);
      [start] + rest
    else
      []
  }

  /** Prepending start to the items from start + step keeps item k at start + k * step. */
  lemma ShiftedItems(start: int, step: int, rest: seq<int>)
    requires forall k :: 0 <= k < |rest| ==> rest[k] == start + step + k * step
    ensures forall k :: 0 <= k < |rest| + 1 ==> ([start] + rest)[k] == start + k * step
    ensures start + step + |rest| * step == start + (|rest| + 1) * step
  {
    forall k | 0 < k < |rest| + 1 ensures ([start] + rest)[k] == start + k * step {
      assert ([start] + rest)[k] == rest[k - 1];
      assert start + step + (k - 1) * step == start + k * step;
    }
  }

  /** range(start, stop, step): a ValueError for step 0. */
  function PyRange(start: int, stop: int, step: int): (r: Result<seq<int>>)
    ensures r.Err? <==> step == 0
    ensures r.Err? ==> r.error == ZeroStep
  {
    if step == 0 then Err(ZeroStep) else Ok(RangeFrom(start, stop, step))
  }

  /** generate_n_seq(start, step) for a directory of fileCount files. */
  function GenerateNSeq(fileCount: nat, start: int, step: int): (r: Result<seq<int>>)
    ensures r.Err? <==> step == 0
  {
    PyRange(start, FixStop(start, fileCount, step), step)
  }

  /** With a positive step, the fixed stop gives exactly count items,
      the i-th being start + i * step. */
  lemma {:induction false} RangeToFixedStop(start: int, count: nat, step: int)
    requires step >= 1
    ensures |RangeFrom(start, FixStop(start, count, step), step)| == count
    ensures forall i :: 0 <= i < count ==> RangeFrom(start, FixStop(start, count, step), step)[i] == start + i * step
    decreases count
  {
    var stop := FixStop(start, count, step);
    if count > 0 {
      FixStopShift(start, count, step);
      assert (count - 1) * step >= 0;
      RangeToFixedStop(start + step, count - 1, step);
      RangeOneMore(start, stop, step, count - 1);
    }
  }

  /** Moving start one step on and taking one file fewer keeps the fixed stop. */
  lemma FixStopShift(start: int, count: nat, step: int)
    requires count >= 1
    ensures FixStop(start + step, count - 1, step) == FixStop(start, count, step)
  {
    assert (count - 1) * step == (count - 2) * step + step;
  }

  /** A range whose first item is on the near side of stop has one item
      more than the range from its second item. */
  lemma RangeOneMore(start: int, stop: int, step: int, n: nat)
    requires (step > 0 && start < stop) || (step < 0 && start > stop)
    requires |RangeFrom(start + step, stop, step)| == n
    ensures |RangeFrom(start, stop, step)| == n + 1
  {
  }

  /** How many items short of count a negative step falls: two for step -1,
      one for any steeper step. */
  function Shortfall(step: int): nat
  {
    if step == -1 then 2 else 1
  }

  /** With a negative step the fixed stop falls short: count - Shortfall(step)
      items (none when that is not positive), the i-th being start + i * step. */
  lemma {:induction false} RangeToFixedStopNegative(start: int, count: nat, step: int)
    requires step <= -1
    ensures |RangeFrom(start, FixStop(start, count, step), step)| ==
              if count <= Shortfall(step) then 0 else count - Shortfall(step)
    ensures forall i :: 0 <= i < |RangeFrom(start, FixStop(start, count, step), step)| ==>
              RangeFrom(start, FixStop(start, count, step), step)[i] == start + i * step
    decreases count
  {
    var stop := FixStop(start, count, step);
    if count > Shortfall(step) {
      FixStopShift(start, count, step);
      NegativeStopBelow(start, count, step);
      RangeToFixedStopNegative(start + step, count - 1, step);
      RangeOneMore(start, stop, step, if count - 1 <= Shortfall(step) then 0 else count - 1 - Shortfall(step));
    } else {
      NegativeStopAbove(start, count, step);
      assert RangeFrom(start, stop, step) == [];
    }
  }

  /** With more files than the shortfall, the fixed stop lies below start. */
  lemma NegativeStopBelow(start: int, count: nat, step: int)
    requires step <= -1 && count > Shortfall(step)
    ensures FixStop(start, count, step) < start
  {
    if step == -1 {
      assert FixStop(start, count, step) == start + 2 - count;
    } else {
      MulBelow(count - 1, step);
    }
  }

  /** With no more files than the shortfall, the fixed stop is not below start. */
  lemma NegativeStopAbove(start: int, count: nat, step: int)
    requires step <= -1 && count <= Shortfall(step)
    ensures FixStop(start, count, step) >= start
  {
    if count == 0 {
      assert FixStop(start, count, step) == start + 1 - step;
    } else if count == 1 {
      assert FixStop(start, count, step) == start + 1;
    } else {
      assert FixStop(start, count, step) == start;
    }
  }

  lemma {:induction false} MulBelow(m: nat, step: int)
    requires m >= 1 && step <= -2
    ensures m * step <= -2
  {
    if m > 1 {
      MulBelow(m - 1, step);
      assert m * step == (m - 1) * step + step;
    }
  }

  /** For step >= 1, generate_n_seq yields exactly fileCount integers,
      start, start + step, ...; nothing when there are no files. */
  lemma NSeqExact(fileCount: nat, start: int, step: int)
    requires step >= 1
    ensures GenerateNSeq(fileCount, start, step).Ok?
    ensures |GenerateNSeq(fileCount, start, step).value| == fileCount
    ensures forall i :: 0 <= i < fileCount ==> GenerateNSeq(fileCount, start, step).value[i] == start + i * step
  {
    RangeToFixedStop(start, fileCount, step);
  }

  /** For step <= -1, generate_n_seq yields fewer integers than there are
      files: two fewer for step -1, one fewer for a steeper step (and never
      fewer than none), still start, start + step, ... */
  lemma NSeqNegativeStepShort(fileCount: nat, start: int, step: int)
    requires step <= -1
    ensures GenerateNSeq(fileCount, start, step).Ok?
    ensures |GenerateNSeq(fileCount, start, step).value| ==
              if fileCount <= Shortfall(step) then 0 else fileCount - Shortfall(step)
    ensures forall i :: 0 <= i < |GenerateNSeq(fileCount, start, step).value| ==>
              GenerateNSeq(fileCount, start, step).value[i] == start + i * step
  {
    RangeToFixedStopNegative(start, fileCount, step);
  }

  /** generate_n_seq() with its defaults start=1, step=1 counts 1, 2, ...,
      fileCount: one-based, not zero-based. */
  lemma NSeqDefaultIsOneBased(fileCount: nat)
    ensures GenerateNSeq(fileCount, 1, 1).Ok?
    ensures |GenerateNSeq(fileCount, 1, 1).value| == fileCount
    ensures forall i :: 0 <= i < fileCount ==> GenerateNSeq(fileCount, 1, 1).value[i] == i + 1
  {
    NSeqExact(fileCount, 1, 1);
  }

  /** range(start, stop) with the default step 1 yields start, start + 1, ..., stop - 1. */
  lemma {:induction false} RangeStepOne(start: int, stop: int)
    ensures |RangeFrom(start, stop, 1)| == if start < stop then stop - start else 0
    ensures forall i :: 0 <= i < |RangeFrom(start, stop, 1)| ==> RangeFrom(start, stop, 1)[i] == start + i
    decreases stop - start
  {
    if start < stop {
      RangeStepOne(start + 1, stop);
    }
  }

  function AlphaStart(upper: bool): int
  {
    if upper then 'A' as int else 'a' as int
  }

  /** generate_a_seq(upper): chr(n) for n in range(start, fileCount % 26 + start).
      It yields fileCount % 26 consecutive letters from 'a' (or 'A'), never
      reaching 'z' (or 'Z'), and nothing when fileCount is a multiple of 26. */
  function GenerateASeq(fileCount: nat, upper: bool): (r: seq<char>)
    ensures |r| == fileCount % 26
    ensures forall i :: 0 <= i < |r| ==> r[i] as int == AlphaStart(upper) + i
    ensures forall i :: 0 <= i < |r| ==> if upper then 'A' <= r[i] < 'Z' else 'a' <= r[i] < 'z'
  {
    var start := if upper then 65 else 97;
    var stop := fileCount % 26 + start;
    var codes := RangeFrom(start, stop, 1);
    RangeStepOne(start, stop);
    seq(|codes|, i requires 0 <= i < |codes| => codes[i] as char)
  }
}
