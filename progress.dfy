/** The percent reporter of progress_tracker.py. A tracker counts processed items against
    a total and prints a progress line whenever the whole-number percent changes; in
    transitions mode `update` prints every percent it passes on the way to the target.
    Printed output is the sequence `printed`, appended to by each call. */
module Progress {
  import opened Wrappers

  /** One printed line: the start message, or `Progress: {percent}% ({processed}/{total})`
      (the ETA part of that line is left out). */
  datatype Output =
    | Message(text: string)
    | Report(percent: int, processed: int, total: int)

  function Abs(n: int): nat {
    if n < 0 then -n else n
  }

  function Max(a: int, b: int): int {
    if a < b then b else a
  }

  /** `int((processed / total) * 100)`: the quotient of `100 * processed` by `total`,
      truncated toward zero, as `int()` truncates. */
  function Percent(processed: int, total: int): int
    requires total != 0
  {
    var q := Abs(100 * processed) / Abs(total);
    if (100 * processed < 0) == (total < 0) then q else -q
  }

  /** On a non-negative count against a positive total, the percent is the whole part of
      `100 * processed / total`. */
  lemma PercentExact(processed: nat, total: int)
    requires total > 0
    ensures Percent(processed, total) * total <= 100 * processed
    ensures 100 * processed < (Percent(processed, total) + 1) * total
  {
  }

  /** A product with a non-negative factor keeps the sign of the other factor. */
  lemma MulNonneg(u: int, t: int)
    ensures u >= 0 && t >= 0 ==> u * t >= 0
  {
  }

  lemma MulLessCancel(a: int, b: int, t: int)
    requires t > 0 && a * t < b * t
    ensures a < b
  {
    MulNonneg(a - b, t);
    assert (a - b) * t == a * t - b * t;
  }

  /** Between none and all items done the percent runs from 0 to 100. */
  lemma PercentRange(processed: int, total: int)
    requires 0 <= processed <= total && total > 0
    ensures 0 <= Percent(processed, total) <= 100
    ensures Percent(0, total) == 0 && Percent(total, total) == 100
  {
    var q := Percent(total, total);
    PercentExact(total, total);
    MulLessCancel(100, q + 1, total);
    MulLessCancel(q, 101, total);
    PercentMonotone(processed, total, total);
  }

  /** More items done never lowers the percent. */
  lemma PercentMonotone(a: int, b: int, total: int)
    requires 0 <= a <= b && total > 0
    ensures Percent(a, total) <= Percent(b, total)
  {
    var qa := Percent(a, total);
    var qb := Percent(b, total);
    PercentExact(a, total);
    PercentExact(b, total);
    MulLessCancel(qa, qb + 1, total);
  }

  /** The lines `update` prints in transitions mode when moving from `from` to `to`: one
      report per percent `from + 1 .. to`. */
  function Transitions(from: int, to: int, processed: int, total: int): seq<Output> {
    seq(if from < to then to - from else 0, i => Report(from + 1 + i, processed, total))
  }

  lemma TransitionsSnoc(from: int, to: int, processed: int, total: int)
    requires from <= to
    ensures Transitions(from, to, processed, total) + [Report(to + 1, processed, total)]
            == Transitions(from, to + 1, processed, total)
  {
  }

  ghost predicate ReportsPercent(t: seq<Output>, p: int) {
    exists i :: 0 <= i < |t| && t[i].Report? && t[i].percent == p
  }

  /** Transitions mode prints every percent above the previous one up to the target, each
      exactly once, in increasing order, and nothing when the target is not above it. */
  lemma TransitionsEnumerate(from: int, to: int, processed: int, total: int)
    ensures var t := Transitions(from, to, processed, total);
            |t| == Max(0, to - from)
            && (forall i :: 0 <= i < |t| ==> t[i].Report? && from < t[i].percent <= to)
            && (forall i, j :: 0 <= i < j < |t| ==> t[i].percent < t[j].percent)
            && (forall p :: from < p <= to ==> ReportsPercent(t, p))
  {
    var t := Transitions(from, to, processed, total);
    forall p | from < p <= to
      ensures ReportsPercent(t, p)
    {
      assert t[p - from - 1].percent == p;
    }
  }

  class ProgressTracker {
    const total: int
    const enabled: bool
    const printAllPercentTransitions: bool
    var processed: int
    var lastPercent: int
    var printed: seq<Output>

    /** A tracker is enabled when `total` reaches `enabledThreshold`; only an enabled
        tracker prints its start message, and only a non-empty one. */
    constructor(total: int, enabledThreshold: int, startMessage: Option<string>,
                printAllPercentTransitions: bool)
      ensures this.total == total && enabled == (total >= enabledThreshold)
      ensures this.printAllPercentTransitions == printAllPercentTransitions
      ensures processed == 0 && lastPercent == -1
      ensures printed
              == if enabled && startMessage.Some? && startMessage.value != []
                 then [Message(startMessage.value)] else []
    {
      this.total := total;
      enabled := total >= enabledThreshold;
      this.printAllPercentTransitions := printAllPercentTransitions;
      processed := 0;
      lastPercent := -1;
      if total >= enabledThreshold && startMessage.Some? && startMessage.value != [] {
        printed := [Message(startMessage.value)];
      } else {
        printed := [];
      }
    }

    /** One more item done. An enabled tracker counts it and prints one report when the
        percent differs from the last one printed. `ZeroDivision` is the error an enabled
        tracker with `total == 0` raises, after counting the item. */
    method Step() returns (r: Result<()>)
      modifies this
      ensures !enabled ==> r == Ok(()) && processed == old(processed)
                           && lastPercent == old(lastPercent) && printed == old(printed)
      ensures enabled ==> processed == old(processed) + 1
      ensures r.Err? <==> enabled && total == 0
      ensures r.Err? ==> r.error == ZeroDivision
                         && lastPercent == old(lastPercent) && printed == old(printed)
      ensures enabled && total != 0 && Percent(processed, total) == old(lastPercent)
              ==> lastPercent == old(lastPercent) && printed == old(printed)
      ensures enabled && total != 0 && Percent(processed, total) != old(lastPercent)
              ==> lastPercent == Percent(processed, total)
                  && printed == old(printed) + [Report(lastPercent, processed, total)]
    {
      if !enabled {
        return Ok(());
      }
      processed := processed + 1;
      if total == 0 {
        return Err(ZeroDivision);
      }
      var percent := Percent(processed, total);
      if percent == lastPercent {
        return Ok(());
      }
      lastPercent := percent;
      printed := printed + [Report(percent, processed, total)];
      r := Ok(());
    }

    /** Set the count of items done. In transitions mode every percent from the last one
        printed up to the target is printed in turn; otherwise the target is printed once,
        when it differs from the last one. */
    method Update(processed: int) returns (r: Result<()>)
      modifies this
      ensures !enabled ==> r == Ok(()) && this.processed == old(this.processed)
                           && lastPercent == old(lastPercent) && printed == old(printed)
      ensures enabled ==> this.processed == processed
      ensures r.Err? <==> enabled && total == 0
      ensures r.Err? ==> r.error == ZeroDivision
                         && lastPercent == old(lastPercent) && printed == old(printed)
      ensures enabled && total != 0 && printAllPercentTransitions
              ==> lastPercent == Max(old(lastPercent), Percent(processed, total))
                  && printed == old(printed)
                                + Transitions(old(lastPercent), Percent(processed, total),
                                              processed, total)
      ensures enabled && total != 0 && !printAllPercentTransitions
              && Percent(processed, total) == old(lastPercent)
              ==> lastPercent == old(lastPercent) && printed == old(printed)
      ensures enabled && total != 0 && !printAllPercentTransitions
              && Percent(processed, total) != old(lastPercent)
              ==> lastPercent == Percent(processed, total)
                  && printed == old(printed) + [Report(lastPercent, processed, total)]
    {
      if !enabled {
        return Ok(());
      }
      this.processed := processed;
      if total == 0 {
        return Err(ZeroDivision);
      }
      var target := Percent(processed, total);
      if printAllPercentTransitions {
        ghost var start := lastPercent;
        ghost var before := printed;
        while lastPercent < target
          invariant start <= lastPercent <= Max(start, target)
          invariant printed == before + Transitions(start, lastPercent, processed, total)
          invariant this.processed == processed
          decreases target - lastPercent
        {
          TransitionsSnoc(start, lastPercent, processed, total);
          lastPercent := lastPercent + 1;
          printed := printed + [Report(lastPercent, processed, total)];
        }
        return Ok(());
      }
      if target == lastPercent {
        return Ok(());
      }
      lastPercent := target;
      printed := printed + [Report(target, processed, total)];
      r := Ok(());
    }
  }
}
