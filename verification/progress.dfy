/**
 * The progress bar of the current window: two byte counters and the
 * percentage shown, computed with integer division.
 */
module Progress {
  /** `_totalSize` and `_processedSize`: byte counts, never negative. */
  datatype Counters = Counters(total: nat, processed: nat)

  /** What an update shows: a percentage, or the exception a zero total raises. */
  datatype Shown = Percent(value: nat) | DivideByZero

  /** `(processed * 100) / total` on `long`s: the whole percentage, rounded down. */
  function Percentage(processed: nat, total: nat): (r: Shown)
    ensures total == 0 <==> r.DivideByZero?
    ensures r.Percent? ==> r.value * total <= processed * 100 < (r.value + 1) * total
  {
    if total == 0 then DivideByZero
    else
      var q := processed * 100 / total;
      assert processed * 100 == q * total + processed * 100 % total;
      assert (q + 1) * total == q * total + total;
      Percent(q)
  }

  /** `UpdateProgress(size, addProgress)`: counts `size` more bytes when asked, then shows the share done. */
  function UpdateProgress(c: Counters, size: nat, addProgress: bool): (r: (Counters, Shown))
    ensures r.0.total == c.total
    ensures r.0.processed == c.processed + (if addProgress then size else 0)
    ensures c.total == 0 <==> r.1.DivideByZero?
    ensures r.1.Percent? ==> r.1.value * c.total <= r.0.processed * 100 < (r.1.value + 1) * c.total
  {
    var next := if addProgress then Counters(c.total, c.processed + size) else c;
    (next, Percentage(next.processed, next.total))
  }

  /** `ChangeControlState(enable)`: enabling the controls clears both counters. */
  function ChangeControlState(c: Counters, enable: bool): (r: Counters)
    ensures enable ==> r.total == 0 && r.processed == 0
    ensures !enable ==> r == c
  {
    if enable then Counters(0, 0) else c
  }

  function Sum(sizes: seq<nat>): nat
    decreases |sizes|
  {
    if |sizes| == 0 then 0 else Sum(sizes[..|sizes| - 1]) + sizes[|sizes| - 1]
  }

  /** The start of a batch: the total is the files' combined length and nothing is done yet. */
  function StartBatch(sizes: seq<nat>): (c: Counters)
    ensures c.processed == 0
    ensures c.total == 0 <==> forall i :: 0 <= i < |sizes| ==> sizes[i] == 0
  {
    SumZero(sizes);
    Counters(Sum(sizes), 0)
  }

  lemma {:induction false} SumZero(sizes: seq<nat>)
    ensures Sum(sizes) == 0 <==> forall i :: 0 <= i < |sizes| ==> sizes[i] == 0
    decreases |sizes|
  {
    if |sizes| > 0 {
      var front := sizes[..|sizes| - 1];
      SumZero(front);
      assert forall i :: 0 <= i < |front| ==> front[i] == sizes[i];
    }
  }

  /** The end of a batch: the processed count is set to the total and shown without adding. */
  function FinishBatch(c: Counters): (r: (Counters, Shown))
    ensures r.0.processed == r.0.total == c.total
    ensures c.total > 0 ==> r.1 == Percent(100)
    ensures c.total == 0 ==> r.1 == DivideByZero
  {
    PercentageOfWhole(c.total);
    UpdateProgress(Counters(c.total, c.total), c.total, false)
  }

  lemma PercentageOfWhole(total: nat)
    ensures total > 0 ==> Percentage(total, total) == Percent(100)
  {
    if total > 0 {
      var v := Percentage(total, total).value;
      assert v * total <= 100 * total < (v + 1) * total;
      LessTimes(v, 101, total);
      LessTimes(99, v, total);
    }
  }

  /** `a * t < b * t` with a positive `t` gives `a < b`. */
  lemma LessTimes(a: nat, b: nat, t: nat)
    requires t > 0
    ensures a * t < b * t ==> a < b
  {
    if a >= b {
      assert a * t >= b * t;
    }
  }

  /** More bytes done never shows a smaller percentage. */
  lemma PercentageMonotonic(a: nat, b: nat, total: nat)
    requires a <= b && total > 0
    ensures Percentage(a, total).value <= Percentage(b, total).value
  {
    var va := Percentage(a, total).value;
    var vb := Percentage(b, total).value;
    assert va * total <= a * 100 <= b * 100 < (vb + 1) * total;
    LessTimes(va, vb + 1, total);
  }

  /** While no more than the total is done, the percentage is at most 100. */
  lemma PercentageAtMostHundred(processed: nat, total: nat)
    requires processed <= total && total > 0
    ensures Percentage(processed, total).value <= 100
  {
    PercentageMonotonic(processed, total, total);
    PercentageOfWhole(total);
  }

  /** A run of updates that each add their size. */
  function Updates(c: Counters, sizes: seq<nat>): (r: Counters)
    decreases |sizes|
  {
    if |sizes| == 0 then c else UpdateProgress(Updates(c, sizes[..|sizes| - 1]), sizes[|sizes| - 1], true).0
  }

  /** A run of updates counts exactly the bytes reported and keeps the total. */
  lemma {:induction false} UpdatesCount(c: Counters, sizes: seq<nat>)
    ensures Updates(c, sizes) == Counters(c.total, c.processed + Sum(sizes))
    decreases |sizes|
  {
    if |sizes| > 0 {
      UpdatesCount(c, sizes[..|sizes| - 1]);
    }
  }

  /** Each further update shows at least the percentage of the one before. */
  lemma UpdateNeverGoesBack(c: Counters, size: nat, addProgress: bool)
    requires c.total > 0
    ensures UpdateProgress(c, size, addProgress).1.value >= Percentage(c.processed, c.total).value
  {
    PercentageMonotonic(c.processed, UpdateProgress(c, size, addProgress).0.processed, c.total);
  }

  /** Once the controls are enabled again, any update before a new batch divides by zero. */
  lemma ResetThenUpdateDividesByZero(c: Counters, size: nat, addProgress: bool)
    ensures UpdateProgress(ChangeControlState(c, true), size, addProgress).1 == DivideByZero
  {
  }

  /** A batch whose files are all empty fails at its first update, and so at its last. */
  lemma EmptyFilesDivideByZero(sizes: seq<nat>)
    requires forall i :: 0 <= i < |sizes| ==> sizes[i] == 0
    ensures FinishBatch(StartBatch(sizes)).1 == DivideByZero
  {
  }
}
