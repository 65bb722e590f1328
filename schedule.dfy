/**
 * The semi-annual end-of-month schedule: every sixth date of the monthly
 * end-of-month schedule, counted either from the first date or back from the
 * last one (EndOfMonthSemiAnnualScheduleCalculator).
 */
module SemiAnnualSchedule {
  import opened Wrappers

  /** Months between two consecutive dates of a semi-annual schedule. */
  const Stride: nat := 6

  /** The two argument checks done before the monthly schedule is generated. */
  datatype ScheduleError = NullStartDate | NullEndDate

  /** Number of dates picked from `n` monthly dates: the ceiling of n / 6. */
  function PickCount(n: nat): nat
  {
    (n + Stride - 1) / Stride
  }

  /**
   * Index of the first picked date. Counting from the front it is 0; counting
   * back from the last date n - 1 in steps of six it is (n - 1) mod 6.
   */
  function Anchor(n: nat, fromEnd: bool): nat
  {
    if fromEnd && n > 0 then (n - 1) % Stride else 0
  }

  /** Index in the monthly schedule of the k-th date of the semi-annual one. */
  function PickedIndex(n: nat, fromEnd: bool, k: nat): nat
  {
    Anchor(n, fromEnd) + Stride * k
  }

  lemma PickedIndexInRange(n: nat, fromEnd: bool, k: nat)
    requires k < PickCount(n)
    ensures PickedIndex(n, fromEnd, k) < n
  {
  }

  /**
   * Reference definition of the selection, by positions: the dates at
   * Anchor, Anchor + 6, Anchor + 12, ... of the monthly schedule.
   */
  function Selected<D>(monthly: seq<D>, fromEnd: bool): seq<D>
  {
    seq(PickCount(|monthly|), k requires 0 <= k < PickCount(|monthly|) =>
      PickedIndexInRange(|monthly|, fromEnd, k);
      monthly[PickedIndex(|monthly|, fromEnd, k)])
  }

  /** The list reversal that the schedule base class applies to the dates picked from the end. */
  function Reversed<D>(s: seq<D>): (r: seq<D>)
    ensures |r| == |s|
  {
    if s == [] then [] else Reversed(s[1..]) + [s[0]]
  }

  lemma {:induction false} ReversedAt<D>(s: seq<D>, k: nat)
    requires k < |s|
    ensures Reversed(s)[k] == s[|s| - 1 - k]
  {
    if k < |s| - 1 {
      ReversedAt(s[1..], k);
    }
  }

  /**
   * Both getSchedule overloads (LocalDate and ZonedDateTime; `D` is the date
   * type). The monthly end-of-month schedule is produced by `monthlySchedule`,
   * which stands for the end-of-month calculator this class delegates to.
   */
  method GetSchedule<D>(startDate: Option<D>, endDate: Option<D>, fromEnd: bool, generateRecursive: bool,
                        monthlySchedule: (D, D, bool, bool) -> seq<D>)
    returns (r: Result<seq<D>, ScheduleError>)
    ensures startDate.None? ==> r == Failure(NullStartDate)
    ensures startDate.Some? && endDate.None? ==> r == Failure(NullEndDate)
    ensures startDate.Some? && endDate.Some? ==>
      r == Success(Selected(monthlySchedule(startDate.value, endDate.value, fromEnd, generateRecursive), fromEnd))
  {
    if startDate.None? {
      return Failure(NullStartDate);
    }
    if endDate.None? {
      return Failure(NullEndDate);
    }
    var monthly := monthlySchedule(startDate.value, endDate.value, fromEnd, generateRecursive);
    var n := |monthly|;
    var result: seq<D> := [];
    if fromEnd {
      var i := n - 1;
      while i >= 0
        invariant i == n - 1 - Stride * |result|
        invariant i + Stride >= 0
        invariant forall j :: 0 <= j < |result| ==> result[j] == monthly[n - 1 - Stride * j]
      {
        result := result + [monthly[i]];
        i := i - Stride;
      }
      var picked := Reversed(result);
      assert |picked| == PickCount(n);
      forall k | 0 <= k < |picked|
        ensures picked[k] == Selected(monthly, fromEnd)[k]
      {
        ReversedAt(result, k);
        assert (n - 1) - Stride * (|result| - 1) == Anchor(n, fromEnd);
      }
      assert picked == Selected(monthly, fromEnd);
      return Success(picked);
    }
    var i := 0;
    while i < n
      invariant i == Stride * |result|
      invariant i <= n + Stride - 1
      invariant forall j :: 0 <= j < |result| ==> result[j] == monthly[Stride * j]
    {
      result := result + [monthly[i]];
      i := i + Stride;
    }
    assert |result| == PickCount(n);
    forall k | 0 <= k < |result|
      ensures result[k] == Selected(monthly, fromEnd)[k]
    {
      assert PickedIndex(n, fromEnd, k) == Stride * k;
    }
    assert result == Selected(monthly, fromEnd);
    return Success(result);
  }

  /** Counting from the front, the k-th pick is monthly date 6k, and there are ceil(n/6) picks. */
  lemma {:induction false} FromStartPicksEverySixth<D>(monthly: seq<D>)
    ensures |Selected(monthly, false)| == (|monthly| + 5) / 6
    ensures forall k :: 0 <= k < |Selected(monthly, false)| ==> Selected(monthly, false)[k] == monthly[6 * k]
  {
  }

  /**
   * Counting from the end, the schedule ends with the last monthly date, has
   * ceil(n/6) dates, and the k-th one is monthly date n - 1 - 6 (count - 1 - k).
   */
  lemma {:induction false} FromEndEndsWithLastDate<D>(monthly: seq<D>)
    requires |monthly| > 0
    ensures |Selected(monthly, true)| == (|monthly| + 5) / 6
    ensures Selected(monthly, true)[|Selected(monthly, true)| - 1] == monthly[|monthly| - 1]
    ensures forall k :: 0 <= k < |Selected(monthly, true)| ==>
      Selected(monthly, true)[k] == monthly[|monthly| - 1 - 6 * (|Selected(monthly, true)| - 1 - k)]
  {
    var n := |monthly|;
    var c := PickCount(n);
    assert Anchor(n, true) + Stride * (c - 1) == n - 1;
  }

  /** An empty monthly schedule gives an empty semi-annual schedule. */
  lemma EmptyMonthlyGivesEmpty<D>(monthly: seq<D>, fromEnd: bool)
    requires monthly == []
    ensures Selected(monthly, fromEnd) == []
  {
  }

  /** `r` is `s` with some elements left out and the rest kept in order. */
  ghost predicate IsOrderedSubsequence<D>(r: seq<D>, s: seq<D>)
  {
    exists idx: seq<nat> ::
      && |idx| == |r|
      && (forall k :: 0 <= k < |idx| ==> idx[k] < |s| && r[k] == s[idx[k]])
      && (forall j, k :: 0 <= j < k < |idx| ==> idx[j] < idx[k])
  }

  /** Either way, the semi-annual schedule is an order-preserving subsequence of the monthly one. */
  lemma SelectedIsOrderedSubsequence<D>(monthly: seq<D>, fromEnd: bool)
    ensures IsOrderedSubsequence(Selected(monthly, fromEnd), monthly)
  {
    var n := |monthly|;
    var idx := seq(PickCount(n), k requires 0 <= k < PickCount(n) => PickedIndex(n, fromEnd, k));
    forall k | 0 <= k < |idx|
      ensures idx[k] < n && Selected(monthly, fromEnd)[k] == monthly[idx[k]]
    {
      PickedIndexInRange(n, fromEnd, k);
    }
  }

  /** Two consecutive semi-annual dates are six monthly dates apart. */
  lemma ConsecutivePicksAreSixMonthsApart(n: nat, fromEnd: bool, k: nat)
    requires k + 1 < PickCount(n)
    ensures PickedIndex(n, fromEnd, k + 1) == PickedIndex(n, fromEnd, k) + 6
  {
  }

  function MapSeq<D, E>(f: D -> E, s: seq<D>): (r: seq<E>)
  {
    seq(|s|, i requires 0 <= i < |s| => f(s[i]))
  }

  /**
   * The selection depends only on positions, not on the dates themselves:
   * converting every date (for instance ZonedDateTime to LocalDate) before or
   * after the selection gives the same schedule, so the two overloads pick the
   * same indices.
   */
  lemma SelectionIgnoresDateType<D, E>(f: D -> E, monthly: seq<D>, fromEnd: bool)
    ensures Selected(MapSeq(f, monthly), fromEnd) == MapSeq(f, Selected(monthly, fromEnd))
  {
  }
}
