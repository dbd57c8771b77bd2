/** The resolution of one project: a weighted lottery among the players still
    eligible. Each entry owns a slice of [1, total] as wide as its weight; a
    draw in that range picks the entry whose slice holds it. */
module Lottery {
  import opened Model

  /** The eligible players with their votes for the project, in table order. */
  type Votes = seq<(Player, int)>

  predicate NonNegativeCounts(votes: Votes) {
    forall k :: 0 <= k < |votes| ==> votes[k].1 >= 0
  }

  predicate Sorted(a: seq<int>) {
    forall j, k :: 0 <= j <= k < |a| ==> a[j] <= a[k]
  }

  /** The lottery weight of a vote count. */
  function Weight(kind: CountingType, c: int): int {
    match kind
    case Linear => c
    case Quadratic => c * c
  }

  /** The raw number of votes cast for the project. */
  function SumCounts(votes: Votes): int {
    if votes == [] then 0 else SumCounts(votes[..|votes| - 1]) + votes[|votes| - 1].1
  }

  /** The sum of the weights of all entries. */
  function TotalWeight(kind: CountingType, votes: Votes): int {
    if votes == [] then 0
    else TotalWeight(kind, votes[..|votes| - 1]) + Weight(kind, votes[|votes| - 1].1)
  }

  /** The cumulative weights: position i holds the total weight of the first
      i entries, so the list starts at 0 and has one more element than
      there are entries. */
  function Intervals(kind: CountingType, votes: Votes): (iv: seq<int>)
    ensures |iv| == |votes| + 1
  {
    seq(|votes| + 1, i requires 0 <= i <= |votes| => TotalWeight(kind, votes[..i]))
  }

  /** The first position whose value reaches x, or |a| when none does: what
      `bisect_left` returns on a sorted list. */
  function LowerBound(a: seq<int>, x: int): (i: nat)
    ensures i <= |a|
    ensures forall j :: 0 <= j < i ==> a[j] < x
    ensures i < |a| ==> a[i] >= x
  {
    if a == [] || a[0] >= x then 0 else 1 + LowerBound(a[1..], x)
  }

  /** `random.randint(1, total)`: the generator's output is the parameter
      `raw`, and as `raw` ranges over the naturals the draw takes every value
      of [1, total]. */
  function Draw(total: int, raw: nat): (r: int)
    requires total > 0
    ensures 1 <= r <= total
  {
    1 + raw % total
  }

  /** The winner of a project, or None when nobody voted for it. */
  function Resolve(kind: CountingType, votes: Votes, raw: nat): Option<Player>
    requires NonNegativeCounts(votes)
  {
    if SumCounts(votes) <= 0 then None
    else
      var iv := Intervals(kind, votes);
      IntervalsShape(kind, votes);
      SupportGivesWeight(kind, votes);
      var r := Draw(iv[|votes|], raw);
      SelectionBounds(kind, votes, r);
      Some(votes[LowerBound(iv, r) - 1].0)
  }

  /** `bisect_left` as the standard library runs it: a binary search. */
  method BisectLeft(a: seq<int>, x: int) returns (i: nat)
    requires Sorted(a)
    ensures i == LowerBound(a, x)
    ensures forall j :: 0 <= j < i ==> a[j] < x
    ensures forall j :: i <= j < |a| ==> a[j] >= x
  {
    var lo, hi := 0, |a|;
    while lo < hi
      invariant 0 <= lo <= hi <= |a|
      invariant forall j :: 0 <= j < lo ==> a[j] < x
      invariant forall j :: hi <= j < |a| ==> a[j] >= x
    {
      var mid := (lo + hi) / 2;
      if a[mid] < x {
        lo := mid + 1;
      } else {
        hi := mid;
      }
    }
    LowerBoundUnique(a, x, lo);
    i := lo;
  }

  /** The resolution of one project: skip it when nobody voted for it,
      otherwise build the cumulative weights, draw and search. */
  method ResolveProject(kind: CountingType, votes: Votes, raw: nat) returns (winner: Option<Player>)
    requires NonNegativeCounts(votes)
    ensures winner == Resolve(kind, votes, raw)
    ensures winner.None? <==> SumCounts(votes) <= 0
    ensures winner.Some? ==>
      exists k :: 0 <= k < |votes| && votes[k].0 == winner.value && votes[k].1 > 0
  {
    if SumCounts(votes) <= 0 {
      return None;
    }
    ghost var iv := Intervals(kind, votes);
    IntervalsShape(kind, votes);
    var intervals := [0];
    for i := 0 to |votes|
      invariant |intervals| == i + 1
      invariant forall j :: 0 <= j <= i ==> intervals[j] == iv[j]
    {
      intervals := intervals + [intervals[i] + Weight(kind, votes[i].1)];
    }
    assert intervals == iv;
    SupportGivesWeight(kind, votes);
    var r := Draw(intervals[|votes|], raw);
    var index := BisectLeft(intervals, r);
    SelectionBounds(kind, votes, r);
    winner := Some(votes[index - 1].0);
  }

  /** Any position with the lower-bound properties is the lower bound. */
  lemma LowerBoundUnique(a: seq<int>, x: int, i: nat)
    requires i <= |a|
    requires forall j :: 0 <= j < i ==> a[j] < x
    requires i < |a| ==> a[i] >= x
    ensures i == LowerBound(a, x)
  {
  }

  lemma {:induction false} TotalWeightStep(kind: CountingType, votes: Votes, i: nat)
    requires i < |votes|
    ensures TotalWeight(kind, votes[..i + 1]) == TotalWeight(kind, votes[..i]) + Weight(kind, votes[i].1)
  {
    assert votes[..i + 1][..i] == votes[..i];
  }

  lemma WeightNonNegative(kind: CountingType, c: int)
    requires c >= 0
    ensures Weight(kind, c) >= 0
    ensures Weight(kind, c) > 0 <==> c > 0
  {
    if kind == Quadratic && c > 0 {
      assert c * c >= c * 1;
    }
  }

  /** The interval list has one more entry than there are players, starts
      at 0, ends at the total weight, grows by each entry's weight, and is
      non-decreasing when no count is negative. */
  lemma {:induction false} IntervalsShape(kind: CountingType, votes: Votes)
    ensures Intervals(kind, votes)[0] == 0
    ensures Intervals(kind, votes)[|votes|] == TotalWeight(kind, votes)
    ensures forall k :: 0 <= k < |votes| ==>
      Intervals(kind, votes)[k + 1] == Intervals(kind, votes)[k] + Weight(kind, votes[k].1)
    ensures NonNegativeCounts(votes) ==> Sorted(Intervals(kind, votes))
  {
    var iv := Intervals(kind, votes);
    assert votes[..0] == [];
    assert votes[..|votes|] == votes;
    forall k | 0 <= k < |votes|
      ensures iv[k + 1] == iv[k] + Weight(kind, votes[k].1)
    {
      TotalWeightStep(kind, votes, k);
    }
    if NonNegativeCounts(votes) {
      forall k | 0 <= k < |votes| ensures iv[k] <= iv[k + 1] {
        WeightNonNegative(kind, votes[k].1);
      }
      StepsSorted(iv);
    }
  }

  /** A list that never decreases from one position to the next is sorted. */
  lemma StepsSorted(a: seq<int>)
    requires forall k :: 0 <= k < |a| - 1 ==> a[k] <= a[k + 1]
    ensures Sorted(a)
  {
    forall j, k | 0 <= j <= k < |a| ensures a[j] <= a[k] {
      var m := j;
      while m < k
        invariant j <= m <= k
        invariant a[j] <= a[m]
      {
        m := m + 1;
      }
    }
  }

  /** The total weight is never below the raw vote count (c <= c * c for
      every integer), and equals it under linear counting. So a project with
      positive support always has a non-empty draw range. */
  lemma {:induction false} WeightDominatesCount(kind: CountingType, votes: Votes)
    ensures TotalWeight(kind, votes) >= SumCounts(votes)
    ensures kind == Linear ==> TotalWeight(kind, votes) == SumCounts(votes)
  {
    if votes != [] {
      WeightDominatesCount(kind, votes[..|votes| - 1]);
      var c := votes[|votes| - 1].1;
      if kind == Quadratic {
        if c >= 1 {
          assert c * c >= c * 1;
        } else {
          assert c * c >= 0;
        }
      }
    }
  }

  lemma SupportGivesWeight(kind: CountingType, votes: Votes)
    ensures SumCounts(votes) > 0 ==> Intervals(kind, votes)[|votes|] > 0
  {
    IntervalsShape(kind, votes);
    WeightDominatesCount(kind, votes);
  }

  /** For a draw in [1, total], the lower bound i lies in [1, N], so the
      winning position i - 1 is a valid index whose slice
      (iv[i - 1], iv[i]] holds the draw; that slice is non-empty, so the
      chosen player has positive weight and a zero-vote player is never
      chosen. */
  lemma SelectionBounds(kind: CountingType, votes: Votes, r: int)
    requires NonNegativeCounts(votes)
    requires 1 <= r <= Intervals(kind, votes)[|votes|]
    ensures var i := LowerBound(Intervals(kind, votes), r);
      && 1 <= i <= |votes|
      && Intervals(kind, votes)[i - 1] < r <= Intervals(kind, votes)[i]
      && Weight(kind, votes[i - 1].1) > 0
      && votes[i - 1].1 > 0
  {
    var iv := Intervals(kind, votes);
    IntervalsShape(kind, votes);
    var i := LowerBound(iv, r);
    assert i != 0;
    assert i <= |votes|;
    WeightNonNegative(kind, votes[i - 1].1);
  }

  /** The integers of the half-open range (lo, hi]. */
  function Range(lo: int, hi: int): (s: set<int>)
    ensures forall r :: r in s <==> lo < r <= hi
    decreases hi - lo
  {
    if hi <= lo then {} else Range(lo, hi - 1) + {hi}
  }

  lemma {:induction false} RangeSize(lo: int, hi: int)
    requires lo <= hi
    ensures |Range(lo, hi)| == hi - lo
    decreases hi - lo
  {
    if lo < hi {
      RangeSize(lo, hi - 1);
    }
  }

  /** On a sorted list, exactly the values in (a[k], a[k + 1]] have their
      lower bound at k + 1. */
  lemma SliceOfLowerBound(a: seq<int>, k: nat, r: int)
    requires Sorted(a)
    requires k + 1 < |a|
    ensures LowerBound(a, r) == k + 1 <==> a[k] < r <= a[k + 1]
  {
    if a[k] < r <= a[k + 1] {
      LowerBoundUnique(a, r, k + 1);
    }
  }

  /** The draws in [1, last] whose lower bound on `a` is i. */
  function Selecting(a: seq<int>, i: nat): set<int>
    requires |a| > 0
  {
    set r | r in Range(0, a[|a| - 1]) && LowerBound(a, r) == i
  }

  /** On a sorted list starting at 0, the values of [1, last] whose lower
      bound is k + 1 are as many as a[k + 1] - a[k]. */
  lemma SliceSize(a: seq<int>, k: nat)
    requires Sorted(a)
    requires k + 1 < |a| && a[0] == 0
    ensures |Selecting(a, k + 1)| == a[k + 1] - a[k]
  {
    var winning := Selecting(a, k + 1);
    var slice := Range(a[k], a[k + 1]);
    assert 0 <= a[k] <= a[k + 1] <= a[|a| - 1];
    forall r ensures r in winning <==> r in slice {
      SliceOfLowerBound(a, k, r);
    }
    assert winning == slice;
    RangeSize(a[k], a[k + 1]);
  }

  /** Lottery fairness: exactly the draws in (iv[k], iv[k + 1]] select entry
      k, and they are as many as entry k's weight, so with a uniform draw
      entry k wins with probability Weight(count_k) / total. */
  lemma WinningDraws(kind: CountingType, votes: Votes, k: nat)
    requires NonNegativeCounts(votes)
    requires k < |votes|
    ensures forall r ::
      (LowerBound(Intervals(kind, votes), r) == k + 1
       <==> Intervals(kind, votes)[k] < r <= Intervals(kind, votes)[k + 1])
    ensures |Selecting(Intervals(kind, votes), k + 1)| == Weight(kind, votes[k].1)
  {
    var iv := Intervals(kind, votes);
    IntervalsShape(kind, votes);
    forall r ensures LowerBound(iv, r) == k + 1 <==> iv[k] < r <= iv[k + 1] {
      SliceOfLowerBound(iv, k, r);
    }
    SliceSize(iv, k);
  }

  /** Every value of [1, total] is the draw of some generator output. */
  lemma DrawCovers(total: int, r: int)
    requires 1 <= r <= total
    ensures Draw(total, r - 1) == r
  {
  }

  /** A project nobody voted for among the eligible players has no winner;
      otherwise the winner is an eligible player who voted for it. */
  lemma ResolveOutcome(kind: CountingType, votes: Votes, raw: nat)
    requires NonNegativeCounts(votes)
    ensures Resolve(kind, votes, raw).None? <==> SumCounts(votes) <= 0
    ensures Resolve(kind, votes, raw).Some? ==>
      exists k :: 0 <= k < |votes| && votes[k].0 == Resolve(kind, votes, raw).value && votes[k].1 > 0
  {
    if SumCounts(votes) > 0 {
      var iv := Intervals(kind, votes);
      IntervalsShape(kind, votes);
      SupportGivesWeight(kind, votes);
      var r := Draw(iv[|votes|], raw);
      SelectionBounds(kind, votes, r);
      var i := LowerBound(iv, r);
      assert votes[i - 1].0 == Resolve(kind, votes, raw).value;
    }
  }

  /** No player appears twice in the list. */
  predicate DistinctVoters(votes: Votes) {
    forall j, k :: 0 <= j < k < |votes| ==> votes[j].0 != votes[k].0
  }

  /** A supported project goes to the entry just before the lower bound of
      the draw. */
  lemma ResolveSelects(kind: CountingType, votes: Votes, raw: nat)
    requires NonNegativeCounts(votes) && SumCounts(votes) > 0
    ensures var iv := Intervals(kind, votes);
      && iv[|votes|] > 0
      && 1 <= LowerBound(iv, Draw(iv[|votes|], raw)) <= |votes|
      && Resolve(kind, votes, raw) == Some(votes[LowerBound(iv, Draw(iv[|votes|], raw)) - 1].0)
  {
    var iv := Intervals(kind, votes);
    IntervalsShape(kind, votes);
    SupportGivesWeight(kind, votes);
    SelectionBounds(kind, votes, Draw(iv[|votes|], raw));
  }

  /** With every player listed once, the player of entry k wins exactly
      when the draw falls in entry k's slice (iv[k], iv[k + 1]]; with
      WinningDraws, a player wins with probability weight / total. */
  lemma PlayerWinsOnSlice(kind: CountingType, votes: Votes, raw: nat, k: nat)
    requires NonNegativeCounts(votes) && DistinctVoters(votes)
    requires k < |votes| && SumCounts(votes) > 0
    ensures var iv := Intervals(kind, votes);
      && iv[|votes|] > 0
      && (Resolve(kind, votes, raw) == Some(votes[k].0) <==> iv[k] < Draw(iv[|votes|], raw) <= iv[k + 1])
  {
    var iv := Intervals(kind, votes);
    ResolveSelects(kind, votes, raw);
    IntervalsShape(kind, votes);
    var r := Draw(iv[|votes|], raw);
    var i := LowerBound(iv, r);
    SliceOfLowerBound(iv, k, r);
    if i - 1 != k {
      assert votes[i - 1].0 != votes[k].0;
    }
  }
}
