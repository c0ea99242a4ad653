/** The feedback controller of src/server_monitor.c:140-207: how the refill rate `add_per_cycle`
    is corrected from the measured utilisation.  Single-precision arithmetic is modelled by real
    numbers; a conversion to int truncates toward zero. */
module Controller {
  import opened Wrappers

  const SAMPLE_TICKS: nat := 50
  const MIN_SAMPLE_UTIL: nat := 3

  function Trunc(x: real): (n: int)
    ensures x >= 0.0 ==> 0 <= n && n as real <= x < n as real + 1.0
    ensures x < 0.0 ==> n <= 0 && n as real - 1.0 < x <= n as real
  {
    if x >= 0.0 then x.Floor else -(-x).Floor
  }

  function Abs(x: int): (n: nat) { if x < 0 then -x else x }

  function AbsR(x: real): (y: real) ensures y >= 0.0 { if x < 0.0 then -x else x }

  // Products and quotients by name, so that equal arguments give equal results by congruence.

  function Mul(x: real, y: real): (z: real) { x * y }

  function Div(x: real, y: real): (z: real) requires y != 0.0 { x / y }

  /** A quarter of the error, in kernel launches, before truncation. */
  function QuarterStep(util: real, limit: real, cur: int): (x: real)
    requires util > 0.0 && cur >= 1
  {
    RatioPositive(util, cur as real);
    Div(Div(AbsR(limit - util), Div(util, cur as real)), 4.0)
  }

  lemma RatioPositive(x: real, y: real)
    requires x > 0.0 && y > 0.0
    ensures Div(x, y) > 0.0
  {
  }

  function Undamped(util: real, limit: real, cur: int): (n: int)
    requires util > 0.0 && cur >= 1
  {
    var d := Trunc(QuarterStep(util, limit, cur));
    if d < 0 then 1 else d
  }

  function Ratio(x: int, y: int): (q: real)
    requires y >= 1
  {
    Div(x as real, y as real)
  }

  /** The overload test of the source: the rate would change by more, relatively, than the average
      of launches did. */
  predicate Overload(old_: int, u: int, cur: int, last: int)
    requires old_ >= 1 && last >= 1
  {
    cur != last && Ratio(u, old_) > Ratio(Abs(cur - last), last + 1)
  }

  /** The rate the overload branch goes to instead. */
  function DampedRate(old_: int, up: bool, cur: int, last: int): (n: int)
    requires last >= 1
  {
    var x := Mul(last as real, Ratio(Abs(cur - last), last + 1));
    Trunc(if up then old_ as real + x else old_ as real - x)
  }

  /** The correction once the undamped step `u` and its direction are known. */
  function Damp(old_: int, u: int, up: bool, cur: int, last: int): (n: int)
    requires old_ >= 1 && last >= 1
    ensures n >= 1
  {
    var new_ := if up then old_ + u else old_ - u;
    var damped := if Overload(old_, Abs(new_ - old_), cur, last) then DampedRate(old_, up, cur, last) else new_;
    if damped < 1 then 1 else damped
  }

  /** The correction of one sampling period. */
  function Correct(old_: int, util: real, limit: real, cur: int, last: int): (n: int)
    requires old_ >= 1 && util > 0.0 && cur >= 1 && last >= 1
    ensures n >= 1
  {
    Damp(old_, Undamped(util, limit, cur), limit > util, cur, last)
  }

  /** Ticks are counted from 1; the first fifty only ramp the rate up. */
  predicate IsCorrectionTick(tick: nat) {
    tick > SAMPLE_TICKS && tick % SAMPLE_TICKS == 0
  }

  /** What a floating-point division yields. */
  datatype Quotient = Finite(value: real) | Infinite | NotANumber

  /** util_per_kernel, which every unblocked tick computes whether it needs it or not. */
  function PerKernel(util: nat, cur: int): (q: Quotient)
    ensures q.Finite? <==> cur != 0
  {
    if cur != 0 then Finite(Div(util as real, cur as real)) else if util == 0 then NotANumber else Infinite
  }

  lemma PerKernelDivides(util: nat, cur: int)
    ensures match PerKernel(util, cur)
      case Finite(q) => cur != 0 && q * cur as real == util as real
      case Infinite => cur == 0 && util > 0
      case NotANumber => cur == 0 && util == 0
  {
  }

  function AtLeastOne(n: int): (r: int) { if n < 1 then 1 else n }

  /** A correction from any utilisation.  If that is 0, the quotient that is converted to int is not
      finite, and the undamped step is whatever comes out, `junk`. */
  function CorrectAny(old_: int, util: nat, limit: int, cur: int, last: int, junk: int): (n: int)
    requires old_ >= 1 && cur >= 1 && last >= 1
    ensures n >= 1
  {
    if util >= 1 then Correct(old_, util as real, limit as real, cur, last)
    else Damp(old_, if junk < 0 then 1 else junk, limit > 0, cur, last)
  }

  /** The rate that tick number `tick` publishes, if it publishes one.  A correction from an average
      below 1, which no interleaving leads to, yields an arbitrary positive rate. */
  function Decide(tick: nat, old_: int, util: nat, limit: int, cur: int, last: int, junk: int): (r: Option<int>)
    requires old_ >= 1
    ensures r.Some? ==> r.value >= 1
  {
    if tick <= SAMPLE_TICKS then if old_ <= MIN_SAMPLE_UTIL then Some(old_ + 1) else None
    else if !IsCorrectionTick(tick) then None
    else if cur >= 1 && last >= 1 then Some(CorrectAny(old_, util, limit, cur, last, junk))
    else Some(AtLeastOne(junk))
  }

  // ---------------------------------------------------------------- direction and size

  lemma DampedStepBounds(d: int, last: int)
    requires d >= 0 && last >= 1
    ensures 0.0 <= Mul(last as real, Ratio(d, last + 1)) <= d as real
  {
  }

  lemma DampedRateBounds(old_: int, up: bool, cur: int, last: int, b: int)
    requires old_ >= 1 && last >= 1 && Mul(last as real, Ratio(Abs(cur - last), last + 1)) <= b as real
    ensures if up then old_ <= DampedRate(old_, up, cur, last) <= old_ + b
            else old_ - b <= DampedRate(old_, up, cur, last) <= old_
  {
    DampedStepBounds(Abs(cur - last), last);
  }

  lemma UndampedNonNegative(util: real, limit: real, cur: int)
    requires util > 0.0 && cur >= 1
    ensures QuarterStep(util, limit, cur) >= 0.0
    ensures Undamped(util, limit, cur) == Trunc(QuarterStep(util, limit, cur)) >= 0
  {
  }

  lemma RatioNonNegative(x: real, y: real)
    requires x >= 0.0 && y > 0.0
    ensures Div(x, y) >= 0.0
  {
  }

  lemma DampMovesTheRightWay(old_: int, u: int, up: bool, cur: int, last: int)
    requires old_ >= 1 && u >= 0 && last >= 1
    ensures if up then Damp(old_, u, up, cur, last) >= old_ else Damp(old_, u, up, cur, last) <= old_
  {
  }

  lemma DirectionOfCorrect(old_: int, util: real, limit: real, cur: int, last: int)
    requires old_ >= 1 && util > 0.0 && cur >= 1 && last >= 1
    ensures if util < limit then Correct(old_, util, limit, cur, last) >= old_
            else Correct(old_, util, limit, cur, last) <= old_
  {
    UndampedNonNegative(util, limit, cur);
    DampMovesTheRightWay(old_, Undamped(util, limit, cur), limit > util, cur, last);
  }

  /** A correction never moves the rate the wrong way: not down while utilisation is below the
      limit, not up otherwise.  Without any utilisation the step is arbitrary, its direction is not. */
  lemma CorrectMovesTheRightWay(old_: int, util: nat, limit: int, cur: int, last: int, junk: int)
    requires old_ >= 1 && cur >= 1 && last >= 1
    ensures if util < limit then CorrectAny(old_, util, limit, cur, last, junk) >= old_
            else CorrectAny(old_, util, limit, cur, last, junk) <= old_
  {
    if util >= 1 {
      DirectionOfCorrect(old_, util as real, limit as real, cur, last);
    } else {
      DampMovesTheRightWay(old_, if junk < 0 then 1 else junk, limit > 0, cur, last);
    }
  }

  /** In the overload branch a correction is at most the difference of the two averages, ... */
  lemma OverloadWithinAverages(old_: int, u: int, up: bool, cur: int, last: int)
    requires old_ >= 1 && u >= 0 && last >= 1 && Overload(old_, u, cur, last)
    ensures Abs(Damp(old_, u, up, cur, last) - old_) <= Abs(cur - last)
  {
    DampedStepBounds(Abs(cur - last), last);
    DampedRateBounds(old_, up, cur, last, Abs(cur - last));
  }

  /** ... and at most the undamped step whenever the last average does not exceed the old rate. */
  lemma OverloadWithinUndamped(old_: int, u: int, up: bool, cur: int, last: int)
    requires u >= 0 && 1 <= last <= old_ && Overload(old_, u, cur, last)
    ensures Abs(Damp(old_, u, up, cur, last) - old_) <= u
  {
    var q := Ratio(Abs(cur - last), last + 1);
    RatioNonNegative(Abs(cur - last) as real, (last + 1) as real);
    BelowUndamped(u as real, old_ as real, last as real, q);
    DampedRateBounds(old_, up, cur, last, u);
  }

  lemma BelowUndamped(u: real, old_: real, last: real, q: real)
    requires old_ >= last > 0.0 && q >= 0.0 && Div(u, old_) > q
    ensures Mul(last, q) <= u
  {
  }

  // ---------------------------------------------------------------- the same in integers

  /** The undamped step without reals: a quarter of the error, in launches, rounded down. */
  function WholeStep(util: nat, limit: int, cur: int): (n: int)
    requires util >= 1 && cur >= 1
  {
    Abs(limit - util) * cur / (4 * util)
  }

  /** The rate a correction by the undamped step `u` leads to, without reals.  The overload test
      compares by cross-multiplication; the overload step is last * |cur - last| / (last + 1),
      rounded down on the way up and up on the way down. */
  function WholeRate(old_: int, u: int, up: bool, cur: int, last: int): (n: int)
    requires old_ >= 1 && last >= 1
  {
    var d := Abs(cur - last);
    var overload := cur != last && u * (last + 1) > d * old_;
    AtLeastOne(
      if up then old_ + (if overload then last * d / (last + 1) else u)
      else old_ - (if overload then (last * d + last) / (last + 1) else u))
  }

  /** A quotient lies between the whole numbers its integer division says. */
  lemma QuotientBounds(a: nat, b: nat)
    requires b >= 1
    ensures (a / b) as real <= Div(a as real, b as real) < (a / b) as real + 1.0
  {
    var q := a / b;
    assert q * b <= a < q * b + b;
    assert (q * b) as real == q as real * b as real;
    QuotientBetween(a as real, b as real, q as real);
  }

  lemma QuotientBetween(a: real, b: real, q: real)
    requires b > 0.0 && q * b <= a < q * b + b
    ensures q <= Div(a, b) < q + 1.0
  {
    var x := Div(a, b);
    assert x * b == a;
    if x < q {
      Scaled(q - x, b);
    }
    if x >= q + 1.0 {
      NonNegativeScaled(x - q - 1.0, b);
    }
  }

  lemma Scaled(x: real, y: real)
    requires x > 0.0 && y > 0.0
    ensures x * y > 0.0
  {
  }

  lemma NonNegativeScaled(x: real, y: real)
    requires x >= 0.0 && y > 0.0
    ensures x * y >= 0.0
  {
  }

  /** A quotient's ceiling. */
  lemma QuotientCeiling(a: nat, b: nat)
    requires b >= 1
    ensures var c := (a + b - 1) / b; c as real - 1.0 < Div(a as real, b as real) <= c as real
  {
    var c := (a + b - 1) / b;
    assert c * b <= a + b - 1 < c * b + b;
    assert (c * b) as real == c as real * b as real;
    QuotientAbove(a as real, b as real, c as real);
  }

  lemma QuotientAbove(a: real, b: real, c: real)
    requires b > 0.0 && c * b - b < a <= c * b
    ensures c - 1.0 < Div(a, b) <= c
  {
    var x := Div(a, b);
    assert x * b == a;
    if x > c {
      Scaled(x - c, b);
    }
    if x <= c - 1.0 {
      NonNegativeScaled(c - 1.0 - x, b);
    }
  }

  lemma CrossMultiplied(a: int, b: int, c: int, d: int)
    requires b >= 1 && d >= 1
    ensures Ratio(a, b) > Ratio(c, d) <==> a * d > c * b
  {
    var x, y := Ratio(a, b), Ratio(c, d);
    var br, dr := b as real, d as real;
    assert x * br == a as real && y * dr == c as real;
    CommonDenominator(x, y, br, dr, a as real, c as real);
    assert (a * d) as real == a as real * dr && (c * b) as real == c as real * br;
  }

  lemma CommonDenominator(x: real, y: real, b: real, d: real, a: real, c: real)
    requires b > 0.0 && d > 0.0 && x * b == a && y * d == c
    ensures x > y <==> a * d > c * b
  {
    Scaled(b, d);
    assert a * d - c * b == (x - y) * (b * d);
    if x > y {
      Scaled(x - y, b * d);
    } else {
      NonNegativeScaled(y - x, b * d);
    }
  }

  lemma FlattenQuarter(d: real, u: real, c: real)
    requires u > 0.0 && c > 0.0
    ensures Div(u, c) > 0.0 && Div(Div(d, Div(u, c)), 4.0) == Div(d * c, 4.0 * u)
  {
    RatioPositive(u, c);
    var r := Div(u, c);
    var x := Div(d, r);
    assert x * r == d && r * c == u;
    assert d * c == x * u;
    assert Div(x * u, u) == x;
  }

  lemma UndampedIsWhole(util: nat, limit: int, cur: int)
    requires util >= 1 && cur >= 1
    ensures Undamped(util as real, limit as real, cur) == WholeStep(util, limit, cur)
  {
    var d := Abs(limit - util);
    FlattenQuarter(d as real, util as real, cur as real);
    assert AbsR(limit as real - util as real) == d as real;
    assert d as real * cur as real == (d * cur) as real && 4.0 * util as real == (4 * util) as real;
    QuotientBounds(d * cur, 4 * util);
    UndampedNonNegative(util as real, limit as real, cur);
  }

  lemma TruncUp(old_: int, x: real, f: int)
    requires old_ >= 1 && f >= 0 && f as real <= x < f as real + 1.0
    ensures Trunc(old_ as real + x) == old_ + f
  {
  }

  lemma TruncDown(old_: int, x: real, c: int)
    requires c as real - 1.0 < x <= c as real
    ensures AtLeastOne(Trunc(old_ as real - x)) == AtLeastOne(old_ - c)
  {
  }

  lemma DampedIsWhole(old_: int, up: bool, cur: int, last: int)
    requires old_ >= 1 && last >= 1
    ensures var a := last * Abs(cur - last);
      AtLeastOne(DampedRate(old_, up, cur, last)) ==
        AtLeastOne(if up then old_ + a / (last + 1) else old_ - (a + last) / (last + 1))
  {
    var d, b: nat := Abs(cur - last), last + 1;
    NatProduct(last, d);
    var a: nat := last * d;
    var x := Div(a as real, b as real);
    assert Mul(last as real, Ratio(d, b)) == x by {
      MulDiv(last as real, d as real, b as real);
      assert last as real * d as real == a as real;
    }
    if up {
      QuotientBounds(a, b);
      NatQuotient(a, b);
      TruncUp(old_, x, a / b);
    } else {
      QuotientCeiling(a, b);
      TruncDown(old_, x, (a + b - 1) / b);
    }
  }

  lemma NatProduct(x: nat, y: nat)
    ensures x * y >= 0
  {
  }

  lemma NatQuotient(a: nat, b: nat)
    requires b >= 1
    ensures a / b >= 0
  {
  }

  lemma MulDiv(x: real, y: real, z: real)
    requires z != 0.0
    ensures Mul(x, Div(y, z)) == Div(x * y, z)
  {
  }

  /** The correction over quotients is the one over whole numbers, overload branch and rounding
      included. */
  lemma DampIsWhole(old_: int, u: int, up: bool, cur: int, last: int)
    requires old_ >= 1 && u >= 0 && last >= 1
    ensures Damp(old_, u, up, cur, last) == WholeRate(old_, u, up, cur, last)
  {
    CrossMultiplied(u, old_, Abs(cur - last), last + 1);
    DampedIsWhole(old_, up, cur, last);
  }

  /** What every tick after the ramp publishes: nothing between the multiples of 50; at a multiple,
      with positive averages, the whole-number correction, by a quarter of the error if there is
      utilisation and by an arbitrary step if there is none. */
  lemma DecideIsWhole(tick: nat, old_: int, util: nat, limit: int, cur: int, last: int, junk: int)
    requires tick > 50 && old_ >= 1
    ensures tick % 50 != 0 ==> Decide(tick, old_, util, limit, cur, last, junk) == None
    ensures tick % 50 == 0 && cur >= 1 && last >= 1 ==>
      var u := if util >= 1 then WholeStep(util, limit, cur) else if junk < 0 then 1 else junk;
      Decide(tick, old_, util, limit, cur, last, junk) == Some(WholeRate(old_, u, util < limit, cur, last))
  {
    if cur >= 1 && last >= 1 {
      if util >= 1 {
        UndampedIsWhole(util, limit, cur);
        WholeStepNonNegative(util, limit, cur);
        DampIsWhole(old_, WholeStep(util, limit, cur), util < limit, cur, last);
      } else {
        DampIsWhole(old_, if junk < 0 then 1 else junk, util < limit, cur, last);
      }
    }
  }

  lemma WholeStepNonNegative(util: nat, limit: int, cur: int)
    requires util >= 1 && cur >= 1
    ensures WholeStep(util, limit, cur) >= 0
  {
    NatProduct(Abs(limit - util), cur);
    NatQuotient(Abs(limit - util) * cur, 4 * util);
  }

  /** So what is published moves the rate the right way, at every utilisation; and while the two
      averages are equal, by exactly the whole step, down to the clamp at 1. */
  lemma PublishedMovesTheRightWay(tick: nat, old_: int, util: nat, limit: int, cur: int, last: int, junk: int)
    requires tick >= 100 && tick % 50 == 0 && old_ >= 1 && cur >= 1 && last >= 1
    ensures var d := Decide(tick, old_, util, limit, cur, last, junk);
      && d.Some?
      && (if util < limit then d.value >= old_ else d.value <= old_)
      && (cur == last && util >= 1 ==>
            var u := Abs(limit - util) * cur / (4 * util);
            d.value == if util < limit then old_ + u else if old_ - u < 1 then 1 else old_ - u)
  {
    CorrectMovesTheRightWay(old_, util, limit, cur, last, junk);
    DecideIsWhole(tick, old_, util, limit, cur, last, junk);
    if util >= 1 { WholeStepNonNegative(util, limit, cur); }
  }

  // ---------------------------------------------------------------- convergence

  /** One correction when utilisation is `c` times the rate and both averages are `avg`.  The limit
      is `c * t`, so that `t` is the rate at which utilisation meets it. */
  function Next(rate: int, c: real, t: real, avg: int): (n: int)
    requires rate >= 1 && c > 0.0 && avg >= 1
    ensures n >= 1
  {
    LinearPositive(c, rate);
    Correct(rate, Mul(c, rate as real), Mul(c, t), avg, avg)
  }

  lemma LinearPositive(c: real, rate: int)
    requires c > 0.0 && rate >= 1
    ensures Mul(c, rate as real) > 0.0
  {
  }

  /** The undamped step of that correction. */
  function Pull(rate: int, c: real, t: real, avg: int): (u: int)
    requires rate >= 1 && c > 0.0 && avg >= 1
  {
    LinearPositive(c, rate);
    Undamped(Mul(c, rate as real), Mul(c, t), avg)
  }

  /** ... is a quarter of the distance, scaled by avg / rate and truncated. */
  lemma PullIsScaledQuarter(rate: int, c: real, t: real, avg: int)
    requires rate >= 1 && c > 0.0 && avg >= 1
    ensures Pull(rate, c, t, avg) == Trunc(Div(Div(Mul(AbsR(t - rate as real), avg as real), rate as real), 4.0))
  {
    LinearPositive(c, rate);
    UndampedNonNegative(Mul(c, rate as real), Mul(c, t), avg);
    RatioPositive(Mul(c, rate as real), avg as real);
    ScaleOut(c, rate as real, t, avg as real);
  }

  lemma ScaleOut(c: real, r: real, t: real, a: real)
    requires c > 0.0 && r > 0.0 && a > 0.0 && Div(Mul(c, r), a) > 0.0
    ensures Div(AbsR(Mul(c, t) - Mul(c, r)), Div(Mul(c, r), a)) == Div(Mul(AbsR(t - r), a), r)
  {
  }

  /** From `r`, the rate `n` is nearer to `t` and on the same side of it. */
  ghost predicate Toward(r: int, n: int, t: real) {
    && (r as real <= t ==> r <= n && n as real <= t)
    && (r as real >= t ==> n <= r && n as real >= t)
  }

  /** One correction moves the rate toward `t` by exactly its undamped step, which is at most a
      quarter of the distance; it never crosses `t` and never needs the lower clamp. */
  lemma NextMovesToward(rate: int, c: real, t: real, avg: int)
    requires rate >= 1 && c > 0.0 && t >= 0.0 && 1 <= avg <= rate
    ensures var n, u := Next(rate, c, t, avg), Pull(rate, c, t, avg);
      && Toward(rate, n, t)
      && n == (if t > rate as real then rate + u else rate - u)
      && 0 <= 4 * u && (4 * u) as real <= AbsR(t - rate as real)
  {
    var u := Pull(rate, c, t, avg);
    PullWithinQuarter(rate, c, t, avg);
    NextIsPull(rate, c, t, avg);
    var n := Next(rate, c, t, avg);
    QuarterIsToward(rate, n, u, t);
  }

  lemma PullWithinQuarter(rate: int, c: real, t: real, avg: int)
    requires c > 0.0 && 1 <= avg <= rate
    ensures var u := Pull(rate, c, t, avg); 0 <= 4 * u && (4 * u) as real <= AbsR(t - rate as real)
  {
    PullIsScaledQuarter(rate, c, t, avg);
    QuarterTruncated(AbsR(t - rate as real), avg as real, rate as real, Pull(rate, c, t, avg));
  }

  lemma QuarterIsToward(rate: int, n: int, u: int, t: real)
    requires rate >= 1 && t >= 0.0 && 0 <= 4 * u && (4 * u) as real <= AbsR(t - rate as real)
    requires var raw := if t > rate as real then rate + u else rate - u; n == if raw < 1 then 1 else raw
    ensures Toward(rate, n, t) && n == if t > rate as real then rate + u else rate - u
  {
  }

  lemma QuarterTruncated(d: real, a: real, r: real, u: int)
    requires d >= 0.0 && 0.0 < a <= r && u == Trunc(Div(Div(Mul(d, a), r), 4.0))
    ensures 0 <= 4 * u && (4 * u) as real <= d
  {
  }

  lemma NextIsPull(rate: int, c: real, t: real, avg: int)
    requires rate >= 1 && c > 0.0 && avg >= 1
    ensures var u := Pull(rate, c, t, avg);
      var raw := if t > rate as real then rate + u else rate - u;
      Next(rate, c, t, avg) == if raw < 1 then 1 else raw
  {
  }

  /** A run of corrections in which correction k sees both averages equal to some value in
      (0, rate]. */
  ghost predicate IsRun(rates: nat -> int, c: real, t: real)
    requires c > 0.0
  {
    forall k: nat :: rates(k) >= 1 && Serves(rates(k), rates(k + 1), c, t)
  }

  ghost predicate Serves(rate: int, next: int, c: real, t: real)
    requires c > 0.0
  {
    rate >= 1 && exists avg :: 1 <= avg <= rate && next == Next(rate, c, t, avg)
  }

  lemma ServesToward(rate: int, next: int, c: real, t: real)
    requires c > 0.0 && t >= 0.0 && Serves(rate, next, c, t)
    ensures Toward(rate, next, t)
  {
    var avg :| 1 <= avg <= rate && next == Next(rate, c, t, avg);
    NextMovesToward(rate, c, t, avg);
  }

  ghost predicate AllToward(rates: nat -> int, t: real) {
    forall k: nat :: Toward(rates(k), rates(k + 1), t)
  }

  lemma {:induction false} TowardFrom(rates: nat -> int, t: real, i: nat, j: nat)
    requires AllToward(rates, t) && i <= j
    ensures Toward(rates(i), rates(j), t)
    decreases j
  {
    if i < j {
      TowardFrom(rates, t, i, j - 1);
      assert Toward(rates(j - 1), rates(j - 1 + 1), t);
    }
  }

  lemma {:induction false} SettlesFrom(rates: nat -> int, t: real, i: nat) returns (n: nat)
    requires AllToward(rates, t)
    ensures forall m: nat :: m >= n ==> rates(m) == rates(n)
    decreases AbsR(t - rates(i) as real).Floor
  {
    if j: nat :| j > i && rates(j) != rates(i) {
      TowardFrom(rates, t, i, j);
      n := SettlesFrom(rates, t, j);
    } else {
      n := i;
    }
  }

  /** Whatever the launch threads do, every run reaches a rate that it never leaves, on the side of
      `t` it started from. */
  lemma RunSettles(rates: nat -> int, c: real, t: real) returns (n: nat)
    requires c > 0.0 && t >= 0.0 && IsRun(rates, c, t)
    ensures forall m: nat :: m >= n ==> rates(m) == rates(n)
    ensures Toward(rates(0), rates(n), t)
  {
    forall k: nat ensures Toward(rates(k), rates(k + 1), t) {
      ServesToward(rates(k), rates(k + 1), c, t);
    }
    n := SettlesFrom(rates, t, 0);
    TowardFrom(rates, t, 0, n);
  }

  /** How many of the first m corrections change the rate. */
  function Changes(rates: nat -> int, m: nat): (n: nat) {
    if m == 0 then 0 else Changes(rates, m - 1) + if rates(m) != rates(m - 1) then 1 else 0
  }

  lemma {:induction false} ChangesWithinTravel(rates: nat -> int, t: real, m: nat)
    requires AllToward(rates, t)
    ensures Changes(rates, m) <= Abs(rates(m) - rates(0))
  {
    if m > 0 {
      ChangesWithinTravel(rates, t, m - 1);
      TowardFrom(rates, t, 0, m - 1);
      assert Toward(rates(m - 1), rates(m - 1 + 1), t);
    }
  }

  /** ... and however long it goes on, no more corrections change the rate than it was away from `t`
      at the start. */
  lemma ChangesBounded(rates: nat -> int, c: real, t: real, m: nat)
    requires c > 0.0 && t >= 0.0 && IsRun(rates, c, t)
    ensures Changes(rates, m) as real <= AbsR(t - rates(0) as real)
  {
    forall k: nat ensures Toward(rates(k), rates(k + 1), t) {
      ServesToward(rates(k), rates(k + 1), c, t);
    }
    ChangesWithinTravel(rates, t, m);
    TowardFrom(rates, t, 0, m);
  }

  /** Where a saturated controller stops: when every token is used (the average is the rate), a rate
      is a fixed point if and only if it is less than four tokens away from `t`. */
  lemma SaturatedFixedPointIff(rate: int, c: real, t: real)
    requires rate >= 1 && c > 0.0 && t >= 0.0
    ensures Next(rate, c, t, rate) == rate <==> AbsR(t - rate as real) < 4.0
  {
    NextMovesToward(rate, c, t, rate);
    PullIsScaledQuarter(rate, c, t, rate);
    CancelRate(AbsR(t - rate as real), rate as real);
  }

  lemma CancelRate(d: real, r: real)
    requires r != 0.0
    ensures Div(Mul(d, r), r) == d
  {
  }

  /** So a run in which every token is used ends less than four tokens away from `t`. */
  lemma SaturatedRunEndsNear(rates: nat -> int, c: real, t: real) returns (n: nat)
    requires c > 0.0 && t >= 0.0 && forall k: nat :: rates(k) >= 1 && rates(k + 1) == Next(rates(k), c, t, rates(k))
    ensures forall m: nat :: m >= n ==> rates(m) == rates(n)
    ensures AbsR(t - rates(n) as real) < 4.0
  {
    forall k: nat ensures rates(k) >= 1 && Serves(rates(k), rates(k + 1), c, t) {
      assert rates(k + 1) == Next(rates(k), c, t, rates(k));
    }
    n := RunSettles(rates, c, t);
    assert rates(n + 1) == Next(rates(n), c, t, rates(n));
    SaturatedFixedPointIff(rates(n), c, t);
  }
}
