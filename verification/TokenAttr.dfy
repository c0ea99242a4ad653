/** The shared token parameters as the monitor process sees them: init_attr and delta_change of
    src/server_monitor.c, with nobody else running. */
module TokenAttr {
  import opened Wrappers
  import opened Controller

  class TokenAttr {
    var inited: bool
    var changed: bool
    var addPerCycle: int
    var coreLimit: int
    var modTimes: nat
    const avgLaunchs: array<int>
    var launchIdx: nat

    ghost predicate Valid()
      reads this
    {
      avgLaunchs.Length == 2 && (inited ==> addPerCycle >= 1)
    }

    /** A zeroed shared segment. */
    constructor ()
      ensures Valid() && !inited && fresh(avgLaunchs)
    {
      inited, changed, addPerCycle, coreLimit, modTimes, launchIdx := false, false, 0, 0, 0, 0;
      avgLaunchs := new int[2](_ => 0);
    }

    /** init_attr.  The second block means to rescale the rate of a segment that was set up for
        another limit, but divides the new limit by itself: the rate survives unchanged, unless
        that limit is 0.  `junk` is what the conversion of that quotient to int yields. */
    method InitAttr(limit: int, junk: int)
      requires Valid()
      modifies this, avgLaunchs
      ensures Valid() && inited && changed && coreLimit == limit
      ensures addPerCycle ==
        if !old(inited) then 1
        else if limit == 0 && old(coreLimit) != 0 then AtLeastOne(junk)
        else old(addPerCycle)
      ensures !old(inited) ==> modTimes == 0 && launchIdx == 0 && avgLaunchs[..] == [0, 0]
      ensures old(inited) ==> launchIdx == old(launchIdx) && avgLaunchs[..] == old(avgLaunchs[..])
      ensures old(inited) ==> modTimes == if old(coreLimit) != limit then 0 else old(modTimes)
    {
      if !inited {
        coreLimit := limit;
        modTimes := 0;
        addPerCycle := 1;
        avgLaunchs[0] := 0;
        avgLaunchs[1] := 0;
        launchIdx := 0;
        inited := true;
      }
      if coreLimit != limit {
        coreLimit := limit;
        modTimes := 0;
        var newCycle := junk;
        if limit != 0 {
          newCycle := Trunc(Div(Mul(addPerCycle as real, coreLimit as real), limit as real));
          CancelRate(addPerCycle as real, limit as real);
        }
        addPerCycle := if newCycle > 1 then newCycle else 1;
      }
      changed := true;
    }

    /** delta_change: one tick of the monitor.  A pending change blocks the tick altogether;
        otherwise the tick is counted and publishes what Decide says.  The result is the local
        util_per_kernel, which is not finite when the average read is 0; `junk` is what a
        conversion to int yields where the value has none. */
    method DeltaChange(util: nat, limit: int, junk: int) returns (utilPerKernel: Quotient)
      requires Valid() && inited
      modifies this
      ensures Valid() && inited && coreLimit == old(coreLimit) && launchIdx == old(launchIdx)
      ensures old(changed) ==> changed && modTimes == old(modTimes) && addPerCycle == old(addPerCycle)
      ensures !old(changed) ==> modTimes == old(modTimes) + 1
      ensures !old(changed) ==> utilPerKernel == PerKernel(util, avgLaunchs[launchIdx % 2])
      ensures !old(changed) ==>
        var cur, last := avgLaunchs[launchIdx % 2], avgLaunchs[(launchIdx + 1) % 2];
        match Decide(modTimes, old(addPerCycle), util, limit, cur, last, junk)
        case Some(rate) => changed && addPerCycle == rate
        case None => !changed && addPerCycle == old(addPerCycle)
    {
      utilPerKernel := Finite(0.0);
      if changed {
        return;
      }
      var cur := avgLaunchs[launchIdx % 2];
      var last := avgLaunchs[(launchIdx + 1) % 2];
      utilPerKernel := PerKernel(util, cur);
      var oldCycle := addPerCycle;
      var err := limit - util;
      modTimes := modTimes + 1;
      var newCycle := junk;
      if modTimes <= SAMPLE_TICKS {
        if oldCycle <= MIN_SAMPLE_UTIL {
          addPerCycle := oldCycle + 1;
          changed := true;
        }
      } else if modTimes % SAMPLE_TICKS == 0 {
        if cur >= 1 && last >= 1 {
          var deltaCycle := junk;
          if util >= 1 {
            RatioPositive(util as real, cur as real);
            deltaCycle := Trunc(Div(Div(Abs(err) as real, utilPerKernel.value), 4.0));
          }
          deltaCycle := if deltaCycle < 0 then 1 else deltaCycle;
          assert util >= 1 ==> deltaCycle == Undamped(util as real, limit as real, cur);
          newCycle := Dampen(oldCycle, deltaCycle, if err > 0 then 1 else -1, cur, last);
        } else {
          newCycle := if newCycle < 1 then 1 else newCycle;
        }
        addPerCycle := newCycle;
        changed := true;
      }
    }

    /** The overload branch and the clamp (src/server_monitor.c:177-188). */
    static method Dampen(oldCycle: int, deltaCycle: int, cycleSigned: int, cur: int, last: int) returns (newCycle: int)
      requires oldCycle >= 1 && cur >= 1 && last >= 1 && (cycleSigned == 1 || cycleSigned == -1)
      ensures newCycle == Damp(oldCycle, deltaCycle, cycleSigned == 1, cur, last)
    {
      newCycle := oldCycle + deltaCycle * cycleSigned;
      var avgDeltaRatio := Ratio(Abs(cur - last), last + 1);
      var cycleDeltaRatio := Ratio(Abs(newCycle - oldCycle), oldCycle);
      if cur != last && cycleDeltaRatio > avgDeltaRatio {
        var x := Mul(last as real, avgDeltaRatio);
        newCycle := Trunc(oldCycle as real + x * cycleSigned as real);
      }
      newCycle := if newCycle < 1 then 1 else newCycle;
    }
  }
}
