/** The integer helpers of `date_utils.py`: `humanize_timedelta` on whole
    seconds and `is_weekend` on a weekday number. */
module DateUtils {
  import opened Text

  /** `is_weekend`: Saturday (5) and Sunday (6) of `datetime.weekday()`. */
  function IsWeekend(weekday: nat): (b: bool)
    requires weekday < 7
  {
    weekday >= 5
  }

  /** Of the seven weekdays, exactly Saturday and Sunday are weekend days. */
  lemma WeekendDays()
    ensures (set d: nat | d < 7 && IsWeekend(d)) == {5, 6}
  {
    var w := set d: nat | d < 7 && IsWeekend(d);
    forall d: nat | d < 7 ensures d in w <==> d == 5 || d == 6 {
    }
    assert 5 in w && 6 in w;
  }

  /** The units `humanize_timedelta` tries, largest first, with their
      sizes in seconds. */
  const Units: seq<(string, nat)> := [("day", 86400), ("hour", 3600), ("minute", 60), ("second", 1)]

  lemma UnitSizes()
    ensures |Units| == 4
    ensures forall i :: 0 <= i < |Units| ==> Units[i].1 >= 1
    ensures forall i :: 0 < i < |Units| ==> Units[i - 1].1 % Units[i].1 == 0
  {
  }

  /** `"{value} {unit}"`, the unit in the plural unless the count is 1. */
  function Part(value: nat, unit: string): (s: string)
    ensures value == 1 ==> s == IntToString(value) + " " + unit
    ensures value != 1 ==> s == IntToString(value) + " " + unit + "s"
  {
    IntToString(value) + " " + (if value == 1 then unit else unit + "s")
  }

  /** The (unit index, count) pairs the loop of `humanize_timedelta` emits
      for `total` remaining seconds, from unit `i` on, having emitted
      `have` parts already; it stops once it has `precision` parts. */
  function Decompose(total: int, i: nat, precision: int, have: nat): seq<(nat, nat)>
    requires i <= |Units|
    decreases |Units| - i
  {
    if i == |Units| then []
    else
      var size := Units[i].1;
      if total >= size && size > 0 then
        var c: (nat, nat) := (i, total / size);
        if have + 1 >= precision then [c] else [c] + Decompose(total % size, i + 1, precision, have + 1)
      else Decompose(total, i + 1, precision, have)
  }

  /** Every pair names one of the units. */
  predicate UnitIndexes(counts: seq<(nat, nat)>) {
    forall k :: 0 <= k < |counts| ==> counts[k].0 < |Units|
  }

  /** The text of the emitted parts. */
  function Render(counts: seq<(nat, nat)>): (parts: seq<string>)
    requires UnitIndexes(counts)
    ensures |parts| == |counts|
  {
    seq(|counts|, k requires 0 <= k < |counts| => Part(counts[k].1, Units[counts[k].0].0))
  }

  /** What `humanize_timedelta` returns for a whole number of seconds. */
  function Humanize(totalSeconds: int, precision: int): string {
    if totalSeconds == 0 then "0 seconds"
    else
      DecomposeShape(totalSeconds, 0, precision, 0);
      Join(Render(Decompose(totalSeconds, 0, precision, 0)), ", ")
  }

  /** `humanize_timedelta(td, precision)` for `int(td.total_seconds())`
      seconds. */
  method HumanizeTimedelta(totalSeconds: int, precision: int) returns (s: string)
    ensures s == Humanize(totalSeconds, precision)
  {
    if totalSeconds == 0 {
      return "0 seconds";
    }
    DecomposeShape(totalSeconds, 0, precision, 0);
    UnitSizes();
    var remaining := totalSeconds;
    var parts: seq<string> := [];
    ghost var counts: seq<(nat, nat)> := [];
    ghost var target := Decompose(totalSeconds, 0, precision, 0);
    var i: nat := 0;
    while i < |Units|
      invariant i <= |Units|
      invariant UnitIndexes(counts)
      invariant parts == Render(counts)
      invariant counts + Decompose(remaining, i, precision, |counts|) == target
    {
      var size := Units[i].1;
      if remaining >= size {
        var value: nat := remaining / size;
        ghost var c: (nat, nat) := (i, value);
        ghost var next := counts + [c];
        MetStep(counts, remaining, i, precision, target, next, remaining % size);
        remaining := remaining % size;
        parts := parts + [Part(value, Units[i].0)];
        counts := next;
        if |parts| >= precision {
          break;
        }
      } else {
        SkipStep(remaining, i, precision, |counts|);
      }
      i := i + 1;
    }
    if i == |Units| {
      assert counts + [] == counts;
    }
    assert counts == target;
    s := Join(parts, ", ");
  }

  /** One unit that is met: its part, then the rest unless `precision`
      parts are reached. */
  lemma DecomposeStep(total: int, i: nat, precision: int, have: nat)
    requires i < |Units| && total >= Units[i].1
    ensures have + 1 >= precision ==> Decompose(total, i, precision, have) == [(i, total / Units[i].1)]
    ensures have + 1 < precision ==>
      Decompose(total, i, precision, have) == [(i, total / Units[i].1)] + Decompose(total % Units[i].1, i + 1, precision, have + 1)
  {
    UnitSizes();
  }

  /** The loop of `humanize_timedelta` keeps its invariant when unit `i`
      is met. */
  lemma LoopStep(counts: seq<(nat, nat)>, remaining: int, i: nat, precision: int, target: seq<(nat, nat)>)
    requires i < |Units| && remaining >= Units[i].1
    requires counts + Decompose(remaining, i, precision, |counts|) == target
    ensures |counts| + 1 >= precision ==> counts + [(i, remaining / Units[i].1)] == target
    ensures |counts| + 1 < precision ==>
      counts + [(i, remaining / Units[i].1)] + Decompose(remaining % Units[i].1, i + 1, precision, |counts| + 1) == target
  {
    var c: (nat, nat) := (i, remaining / Units[i].1);
    DecomposeStep(remaining, i, precision, |counts|);
    if |counts| + 1 < precision {
      var rest := Decompose(remaining % Units[i].1, i + 1, precision, |counts| + 1);
      assert counts + [c] + rest == counts + ([c] + rest);
    }
  }

  /** The whole invariant of the loop of `humanize_timedelta` after a unit
      that is met. */
  lemma MetStep(counts: seq<(nat, nat)>, remaining: int, i: nat, precision: int, target: seq<(nat, nat)>,
                next: seq<(nat, nat)>, left: int)
    requires i < |Units| && remaining >= Units[i].1
    requires UnitIndexes(counts)
    requires counts + Decompose(remaining, i, precision, |counts|) == target
    requires next == counts + [(i, remaining / Units[i].1)] && left == remaining % Units[i].1
    ensures UnitIndexes(next) && Render(next) == Render(counts) + [Part(remaining / Units[i].1, Units[i].0)]
    ensures |next| >= precision ==> next == target
    ensures |next| < precision ==> next + Decompose(left, i + 1, precision, |next|) == target
  {
    LoopStep(counts, remaining, i, precision, target);
    RenderAppend(counts, (i, remaining / Units[i].1));
  }

  lemma RenderAppend(counts: seq<(nat, nat)>, c: (nat, nat))
    requires UnitIndexes(counts)
    requires c.0 < |Units|
    ensures UnitIndexes(counts + [c])
    ensures Render(counts + [c]) == Render(counts) + [Part(c.1, Units[c.0].0)]
  {
  }

  /** A unit that is not met emits nothing. */
  lemma SkipStep(total: int, i: nat, precision: int, have: nat)
    requires i < |Units| && total < Units[i].1
    ensures Decompose(total, i, precision, have) == Decompose(total, i + 1, precision, have)
  {
  }

  /** Seconds accounted for by emitted parts. */
  function Weighted(counts: seq<(nat, nat)>): int
    requires UnitIndexes(counts)
  {
    if counts == [] then 0 else counts[0].1 * Units[counts[0].0].1 + Weighted(counts[1..])
  }

  /** Units appear largest first, each at most once, with a non-zero
      count, and there are at most `max(precision - have, 1)` of them. */
  lemma {:induction false} DecomposeShape(total: int, i: nat, precision: int, have: nat)
    requires i <= |Units|
    ensures forall k :: 0 <= k < |Decompose(total, i, precision, have)| ==>
      i <= Decompose(total, i, precision, have)[k].0 < |Units| && Decompose(total, i, precision, have)[k].1 >= 1
    ensures forall j, k :: 0 <= j < k < |Decompose(total, i, precision, have)| ==>
      Decompose(total, i, precision, have)[j].0 < Decompose(total, i, precision, have)[k].0
    ensures |Decompose(total, i, precision, have)| <= if precision - have > 1 then precision - have else 1
    decreases |Units| - i
  {
    if i < |Units| {
      var size := Units[i].1;
      if total >= size && size > 0 {
        DecomposeShape(total % size, i + 1, precision, have + 1);
      } else {
        DecomposeShape(total, i + 1, precision, have);
      }
    }
  }

  /** A negative number of seconds meets no unit: the result is empty. */
  lemma NegativeIsEmpty(totalSeconds: int, precision: int)
    requires totalSeconds < 0
    ensures Humanize(totalSeconds, precision) == ""
  {
    NegativeDecompose(totalSeconds, 0, precision, 0);
  }

  lemma {:induction false} NegativeDecompose(total: int, i: nat, precision: int, have: nat)
    requires total < 0 && i <= |Units|
    ensures Decompose(total, i, precision, have) == []
    decreases |Units| - i
  {
    if i < |Units| {
      NegativeDecompose(total, i + 1, precision, have);
    }
  }

  /** The emitted parts never account for more seconds than there are,
      and, when `precision` does not cut the loop short, for exactly all
      of them. */
  lemma {:induction false} DecomposeWeight(total: int, i: nat, precision: int, have: nat)
    requires 0 <= total && i <= |Units|
    requires 0 < i ==> total < Units[i - 1].1
    ensures UnitIndexes(Decompose(total, i, precision, have))
    ensures Weighted(Decompose(total, i, precision, have)) <= total
    ensures precision - have >= |Units| - i ==> Weighted(Decompose(total, i, precision, have)) == total
    decreases |Units| - i
  {
    DecomposeShape(total, i, precision, have);
    if i < |Units| {
      var size := Units[i].1;
      var r := Decompose(total, i, precision, have);
      if total >= size {
        var q := total / size;
        var rest := total % size;
        DivMod(total, size);
        DecomposeWeight(rest, i + 1, precision, have + 1);
        DecomposeStep(total, i, precision, have);
        if have + 1 >= precision {
          WeightCons((i, q), []);
          if precision - have >= |Units| - i {
            assert i == |Units| - 1 && size == 1;
          }
        } else {
          WeightCons((i, q), Decompose(rest, i + 1, precision, have + 1));
        }
      } else {
        DecomposeWeight(total, i + 1, precision, have);
        if i == |Units| - 1 {
          assert total == 0;
        }
      }
    }
  }

  lemma DivMod(total: int, size: int)
    requires 0 <= total && 0 < size
    ensures total / size * size + total % size == total && 0 <= total % size < size
  {
  }

  lemma WeightCons(c: (nat, nat), rest: seq<(nat, nat)>)
    requires c.0 < |Units| && UnitIndexes(rest)
    ensures UnitIndexes([c] + rest)
    ensures Weighted([c] + rest) == c.1 * Units[c.0].1 + Weighted(rest)
  {
    assert ([c] + rest)[1..] == rest;
  }

  /** `humanize_timedelta` with enough precision for every unit spells out
      the whole duration. */
  lemma HumanizeComplete(totalSeconds: int, precision: int)
    requires totalSeconds > 0 && precision >= |Units|
    ensures Weighted(Decompose(totalSeconds, 0, precision, 0)) == totalSeconds
  {
    DecomposeWeight(totalSeconds, 0, precision, 0);
  }
}
