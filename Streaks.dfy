/** Contribution streaks over the calendar's day counts, in calendar order:
    the current streak is the run of days with contributions that ends on the
    last day, the longest streak the longest such run anywhere. */
module Streaks {

  /** Every day in `s[i..j]` has at least one contribution. */
  predicate PositiveRun(s: seq<nat>, i: nat, j: nat)
    requires i <= j <= |s|
  {
    forall k :: i <= k < j ==> s[k] > 0
  }

  function Max(a: nat, b: nat): nat {
    if a >= b then a else b
  }

  /** Length of the run of days with contributions that ends on the last day. */
  function TrailingRun(s: seq<nat>): (r: nat)
    ensures r <= |s|
  {
    if s == [] then 0
    else if s[|s| - 1] > 0 then TrailingRun(s[..|s| - 1]) + 1
    else 0
  }

  /** Length of the longest run of days with contributions. */
  function LongestRun(s: seq<nat>): (r: nat)
    ensures TrailingRun(s) <= r <= |s|
  {
    if s == [] then 0 else Max(LongestRun(s[..|s| - 1]), TrailingRun(s))
  }

  /** The trailing run is a run, and it cannot be extended to the left. */
  lemma {:induction false} TrailingRunIsMaximalSuffix(s: seq<nat>)
    ensures PositiveRun(s, |s| - TrailingRun(s), |s|)
    ensures TrailingRun(s) < |s| ==> s[|s| - TrailingRun(s) - 1] == 0
  {
    if s != [] && s[|s| - 1] > 0 {
      var p := s[..|s| - 1];
      TrailingRunIsMaximalSuffix(p);
      assert forall k :: |s| - TrailingRun(s) <= k < |s| - 1 ==> s[k] == p[k];
    }
  }

  /** A run that ends on the last day is no longer than the trailing run. */
  lemma {:induction false} TrailingRunBoundsSuffixes(s: seq<nat>, i: nat)
    requires i <= |s| && PositiveRun(s, i, |s|)
    ensures |s| - i <= TrailingRun(s)
  {
    if i < |s| {
      var p := s[..|s| - 1];
      assert PositiveRun(p, i, |p|) by {
        assert forall k :: i <= k < |p| ==> p[k] == s[k];
      }
      TrailingRunBoundsSuffixes(p, i);
    }
  }

  /** Every run of days with contributions is at most the longest streak. */
  lemma {:induction false} LongestRunIsLongest(s: seq<nat>, i: nat, j: nat)
    requires i <= j <= |s| && PositiveRun(s, i, j)
    ensures j - i <= LongestRun(s)
  {
    if j == |s| {
      TrailingRunBoundsSuffixes(s, i);
    } else {
      var p := s[..|s| - 1];
      assert PositiveRun(p, i, j) by {
        assert forall k :: i <= k < j ==> p[k] == s[k];
      }
      LongestRunIsLongest(p, i, j);
    }
  }

  /** The longest streak is attained: some run has exactly that length. */
  lemma {:induction false} LongestRunIsAttained(s: seq<nat>) returns (i: nat)
    ensures i + LongestRun(s) <= |s| && PositiveRun(s, i, i + LongestRun(s))
  {
    if s == [] {
      i := 0;
    } else {
      var p := s[..|s| - 1];
      if LongestRun(p) >= TrailingRun(s) {
        i := LongestRunIsAttained(p);
        assert forall k :: i <= k < i + LongestRun(p) ==> p[k] == s[k];
      } else {
        TrailingRunIsMaximalSuffix(s);
        i := |s| - TrailingRun(s);
      }
    }
  }

  /** There is no streak at all exactly when no day has a contribution. */
  lemma NoStreakIffNoContribution(s: seq<nat>)
    ensures LongestRun(s) == 0 <==> forall k :: 0 <= k < |s| ==> s[k] == 0
  {
    if LongestRun(s) == 0 {
      forall k | 0 <= k < |s|
        ensures s[k] == 0
      {
        if s[k] > 0 {
          LongestRunIsLongest(s, k, k + 1);
        }
      }
    } else {
      var i := LongestRunIsAttained(s);
      assert s[i] > 0;
    }
  }

  /** The streak loop: one pass over the day counts in calendar order. */
  method ComputeStreaks(counts: seq<nat>) returns (current: nat, longest: nat)
    ensures current == TrailingRun(counts) && longest == LongestRun(counts)
  {
    current, longest := 0, 0;
    for i := 0 to |counts|
      invariant current == TrailingRun(counts[..i])
      invariant longest == LongestRun(counts[..i])
    {
      assert counts[..i + 1][..i] == counts[..i];
      if counts[i] > 0 {
        current := current + 1;
        longest := Max(longest, current);
      } else {
        current := 0;
      }
    }
    assert counts[..|counts|] == counts;
  }
}
