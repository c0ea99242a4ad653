/** The ten-slot ring of launch counts in token_post (src/ioctl_hook.c:62-73) and the average it
    yields.  Counts are taken to fit a signed 32-bit integer, and so do their sums. */
module LaunchWindow {

  const LAUNCH_SAMPLES: nat := 10

  function PositiveSum(s: seq<int>): (n: nat) {
    if s == [] then 0 else PositiveSum(s[..|s| - 1]) + if s[|s| - 1] > 0 then s[|s| - 1] else 0
  }

  function PositiveCount(s: seq<int>): (n: nat) {
    if s == [] then 0 else PositiveCount(s[..|s| - 1]) + if s[|s| - 1] > 0 then 1 else 0
  }

  /** The average as published: one more than the number of positive samples in the denominator,
      and never below 1. */
  function Average(s: seq<int>): (n: int)
    ensures n >= 1
  {
    var avg := PositiveSum(s) / (PositiveCount(s) + 1);
    if avg == 0 then 1 else avg
  }

  function Zeros(): (s: seq<int>) ensures |s| == LAUNCH_SAMPLES { [0, 0, 0, 0, 0, 0, 0, 0, 0, 0] }

  /** The last ten samples of a history, older ones being 0 when there are not ten. */
  function LastTen(history: seq<int>): (s: seq<int>)
    ensures |s| == LAUNCH_SAMPLES
  {
    (Zeros() + history)[|history|..]
  }

  function Rotation(s: seq<int>, c: nat): (r: seq<int>)
    requires c <= |s|
  {
    s[c..] + s[..c]
  }

  /** The slot after the one written last. */
  function Oldest(n: nat): (c: nat) ensures c < LAUNCH_SAMPLES { (n + 1) % LAUNCH_SAMPLES }

  /** What the ring holds after `history`: sample number n, from 1, goes to slot n % 10. */
  function RingAfter(history: seq<int>): (ring: seq<int>)
    ensures |ring| == LAUNCH_SAMPLES
  {
    if history == [] then Zeros()
    else
      var n := |history| - 1;
      RingAfter(history[..n])[Oldest(n) := history[n]]
  }

  /** The ring is the last ten samples, rotated. */
  lemma {:induction false} RingIsRotatedWindow(history: seq<int>)
    ensures LastTen(history) == Rotation(RingAfter(history), Oldest(|history|))
  {
    if history == [] {
      assert LastTen(history) == Zeros();
    } else {
      var n, x := |history| - 1, history[|history| - 1];
      RingIsRotatedWindow(history[..n]);
      WindowShifts(history[..n], x);
      assert history == history[..n] + [x];
      RotationShifts(RingAfter(history[..n]), n, x);
    }
  }

  lemma WindowShifts(history: seq<int>, x: int)
    ensures LastTen(history + [x]) == LastTen(history)[1..] + [x]
  {
    assert Zeros() + (history + [x]) == Zeros() + history + [x];
  }

  lemma RotationShifts(ring: seq<int>, n: nat, x: int)
    requires |ring| == LAUNCH_SAMPLES
    ensures Rotation(ring[Oldest(n) := x], Oldest(n + 1)) == Rotation(ring, Oldest(n))[1..] + [x]
  {
    assert Oldest(n + 1) == if Oldest(n) == LAUNCH_SAMPLES - 1 then 0 else Oldest(n) + 1;
  }

  lemma {:induction false} PositiveConcat(a: seq<int>, b: seq<int>)
    ensures PositiveSum(a + b) == PositiveSum(a) + PositiveSum(b)
    ensures PositiveCount(a + b) == PositiveCount(a) + PositiveCount(b)
  {
    if b == [] {
      assert a + b == a;
    } else {
      assert (a + b)[..|a + b| - 1] == a + b[..|b| - 1];
      PositiveConcat(a, b[..|b| - 1]);
    }
  }

  lemma RotationKeepsAverage(s: seq<int>, c: nat)
    requires c <= |s|
    ensures Average(Rotation(s, c)) == Average(s)
  {
    assert s[..c] + s[c..] == s;
    PositiveConcat(s[..c], s[c..]);
    PositiveConcat(s[c..], s[..c]);
  }

  /** The ring's average is that of the full history's ten-sample suffix. */
  lemma RingAverage(history: seq<int>)
    ensures Average(RingAfter(history)) == Average(LastTen(history))
  {
    RingIsRotatedWindow(history);
    RotationKeepsAverage(RingAfter(history), Oldest(|history|));
  }

  /** The count is that of the positive samples, ... */
  lemma {:induction false} CountIsCardinality(s: seq<int>)
    ensures PositiveCount(s) == |set i | 0 <= i < |s| && s[i] > 0|
  {
    if s != [] {
      var n := |s| - 1;
      CountIsCardinality(s[..n]);
      var before, all := set i | 0 <= i < n && s[..n][i] > 0, set i | 0 <= i < |s| && s[i] > 0;
      assert all == before + if s[n] > 0 then {n} else {};
    }
  }

  /** ... and the average is the whole quotient of their sum by one more than that, where it is at
      least 1. */
  lemma AverageIsQuotient(s: seq<int>)
    ensures var n, sum, j := Average(s), PositiveSum(s), |set i | 0 <= i < |s| && s[i] > 0|;
      n >= 1 && sum < (n + 1) * (j + 1) && (n == 1 || n * (j + 1) <= sum)
  {
    CountIsCardinality(s);
    QuotientBounds(PositiveSum(s), PositiveCount(s) + 1, PositiveSum(s) / (PositiveCount(s) + 1));
  }

  lemma QuotientBounds(a: nat, d: nat, q: nat)
    requires d > 0 && q == a / d
    ensures q * d <= a < (q + 1) * d && (q == 0 ==> a < (1 + 1) * d)
  {
    assert a == q * d + a % d;
    assert (q + 1) * d == q * d + d;
  }

  /** The average stays strictly below the largest sample, unless that pins it to 1. */
  lemma AverageBelowLargest(s: seq<int>, largest: int)
    requires forall i :: 0 <= i < |s| ==> s[i] <= largest
    ensures 1 <= Average(s) <= if largest - 1 > 1 then largest - 1 else 1
  {
    SumBound(s, largest);
    var total, j := PositiveSum(s), PositiveCount(s);
    if largest > 0 {
      DivBelow(total, j, largest);
    }
  }

  /** One large sample lifts it above 1. */
  lemma AverageAboveOne(s: seq<int>, i: nat)
    requires i < |s| && s[i] >= 2 * (|s| + 1)
    ensures Average(s) >= 2
  {
    SumCovers(s, i);
    AtLeastTwo(PositiveSum(s), PositiveCount(s) + 1);
  }

  lemma AtLeastTwo(total: nat, d: nat)
    requires d > 0 && total >= 2 * d
    ensures total / d >= 2
  {
  }

  lemma {:induction false} SumCovers(s: seq<int>, i: nat)
    requires i < |s|
    ensures PositiveSum(s) >= s[i] && PositiveCount(s) <= |s|
  {
    if i < |s| - 1 {
      SumCovers(s[..|s| - 1], i);
    } else {
      CountBound(s);
    }
  }

  lemma {:induction false} CountBound(s: seq<int>)
    ensures PositiveCount(s) <= |s|
  {
    if s != [] { CountBound(s[..|s| - 1]); }
  }

  lemma {:induction false} SumBound(s: seq<int>, largest: int)
    requires forall i :: 0 <= i < |s| ==> s[i] <= largest
    ensures largest > 0 ==> PositiveSum(s) <= PositiveCount(s) * largest
    ensures largest <= 0 ==> PositiveSum(s) == 0
  {
    if s != [] {
      SumBound(s[..|s| - 1], largest);
      var j := PositiveCount(s[..|s| - 1]);
      assert (j + 1) * largest == j * largest + largest;
    }
  }

  lemma DivBelow(total: nat, j: nat, m: int)
    requires m > 0 && total <= j * m
    ensures total / (j + 1) <= m - 1
  {
    var q := total / (j + 1);
    assert q * (j + 1) <= total;
    if q >= m {
      MulMono(m, q, j + 1);
    }
  }

  lemma MulMono(x: int, y: int, z: nat)
    requires x <= y
    ensures x * z <= y * z
  {
  }

  /** The ring and its loop counter. */
  class Ring {
    const launchTimes: array<int>
    var loop: nat
    ghost var history: seq<int>

    ghost predicate Valid()
      reads this, launchTimes
    {
      launchTimes.Length == LAUNCH_SAMPLES && loop == |history| && launchTimes[..] == RingAfter(history)
    }

    constructor ()
      ensures Valid() && history == [] && fresh(launchTimes)
    {
      launchTimes := new int[LAUNCH_SAMPLES](_ => 0);
      loop, history := 0, [];
      new;
      assert launchTimes[..] == Zeros();
    }

    /** One cycle's worth: store the sample, average the positive slots. */
    method Record(sample: int) returns (avg: int)
      requires Valid()
      modifies this, launchTimes
      ensures Valid() && history == old(history) + [sample]
      ensures avg == Average(LastTen(history))
    {
      loop := loop + 1;
      launchTimes[loop % LAUNCH_SAMPLES] := sample;
      history := history + [sample];
      assert history[..|history| - 1] == old(history);
      assert launchTimes[..] == RingAfter(history);
      RingAverage(history);
      avg := Mean();
    }

    /** The summing loop of a cycle. */
    method Mean() returns (avg: int)
      ensures avg == Average(launchTimes[..])
    {
      var sum, j := 0, 0;
      for i := 0 to launchTimes.Length
        invariant sum == PositiveSum(launchTimes[..i]) && j == PositiveCount(launchTimes[..i])
      {
        assert launchTimes[..i + 1][..i] == launchTimes[..i];
        if launchTimes[i] > 0 {
          sum := sum + launchTimes[i];
          j := j + 1;
        }
      }
      assert launchTimes[..launchTimes.Length] == launchTimes[..];
      sum := sum / (j + 1);
      avg := if sum != 0 then sum else 1;
    }
  }
}
