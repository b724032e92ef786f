/** What the pod-scaling governor's request means: what a load, a target, a bias and a
    damping factor do to the frequency asked for. */
module PodMeaning {
  import opened Bytes
  import opened PodGovernor
  import opened PodRequest

  // ----- damping ---------------------------------------------------------------------

  lemma TenTenths(x: int)
    ensures TruncDiv(10 * x, 10) == x
  {
  }

  /** A factor of 10 is the request itself, a factor of 0 the running average. */
  lemma DampEnds(res: int, avg: int)
    ensures Damped(10, res, avg) == res
    ensures Damped(0, res, avg) == avg
  {
    TenTenths(res);
    TenTenths(avg);
    assert 10 * res + (10 - 10) * avg == 10 * res;
    assert 0 * res + (10 - 0) * avg == 10 * avg;
  }

  lemma DampMirror(d: int, res: int, avg: int)
    ensures Damped(10 - d, avg, res) == Damped(d, res, avg)
  {
    assert (10 - d) * avg + (10 - (10 - d)) * res == d * res + (10 - d) * avg;
  }

  lemma DampOrder(d: int, e: int, res: int, avg: int)
    requires 0 <= d <= e <= 10 && avg <= res
    ensures avg <= Damped(d, res, avg) <= Damped(e, res, avg) <= res
  {
    var gap := res - avg;
    MulMonotone(0, d, gap);
    MulMonotone(d, e, gap);
    MulMonotone(e, 10, gap);
    assert d * res + (10 - d) * avg == 10 * avg + d * gap;
    assert e * res + (10 - e) * avg == 10 * avg + e * gap;
    DivOrder(10 * avg, 10 * avg + d * gap, 10);
    DivOrder(10 * avg + d * gap, 10 * avg + e * gap, 10);
    DivOrder(10 * avg + e * gap, 10 * res, 10);
    TenTenths(avg);
    TenTenths(res);
  }

  /** A growing factor moves the result from the average to the request, whichever of
      the two is higher. */
  lemma DampMoves(d: int, e: int, res: int, avg: int)
    requires 0 <= d <= e <= 10
    ensures avg <= res ==> avg <= Damped(d, res, avg) <= Damped(e, res, avg) <= res
    ensures res <= avg ==> res <= Damped(e, res, avg) <= Damped(d, res, avg) <= avg
  {
    if avg <= res {
      DampOrder(d, e, res, avg);
    }
    if res <= avg {
      DampOrder(10 - e, 10 - d, avg, res);
      DampMirror(d, res, avg);
      DampMirror(e, res, avg);
    }
  }

  // ----- boost -------------------------------------------------------------------------

  /** A load k targets above the target is boosted by k times the biased share. */
  lemma BoostAt(k: nat, target: int, bias: nat, freq: nat)
    requires target > 0
    ensures RawBoost((k + 1) * target, target, bias, freq) == k * (bias * freq) / 100
  {
    var x := bias * freq;
    var y := k * x;
    MulMonotone(0, k, x);
    DivModFacts(y, 100);
    var q, r := y / 100, y % 100;
    assert (k + 1) * target - target == k * target;
    assert k * target * x == target * y;
    assert target * y == q * (100 * target) + target * r;
    MulMonotone(r, 99, target);
    MulMonotone(0, r, target);
    DivModUnique(target * y, 100 * target, q, target * r);
    MulMonotone(0, y, target);
  }

  /** On target there is no boost; at twice the target it is the biased share of the
      frequency. */
  lemma BoostAtTargets(target: int, bias: nat, freq: nat)
    requires target > 0
    ensures RawBoost(target, target, bias, freq) == 0
    ensures RawBoost(2 * target, target, bias, freq) == bias * freq / 100
  {
    BoostAt(0, target, bias, freq);
    BoostAt(1, target, bias, freq);
  }

  /** More load, no less boost. */
  lemma BoostMonotone(a: nat, b: nat, target: int, bias: nat, freq: nat)
    requires a <= b && target > 0
    ensures RawBoost(a, target, bias, freq) <= RawBoost(b, target, bias, freq)
  {
    MulMonotone(a - target, b - target, bias * freq);
    DivOrder((a - target) * (bias * freq), (b - target) * (bias * freq), 100 * target);
  }

  // ----- load ----------------------------------------------------------------------------

  lemma AtLeastIff(x: nat, d: nat, k: nat)
    requires d > 0
    ensures x / d >= k <==> x >= k * d
  {
    DivModFacts(x, d);
    if x / d >= k {
      MulMonotone(k, x / d, d);
    } else {
      MulMonotone(x / d + 1, k, d);
      assert (x / d + 1) * d == x / d * d + d;
    }
  }

  /** The busyness reaches k thousandths exactly when some recorded load does, or the
      average load while nothing is recorded. */
  lemma BusynessReachesIff(s: Sample, h: seq<nat>, k: nat)
    requires s.currentFreq > 0
    ensures Busyness(s, h) >= k <==>
            if h == [] then 1000 * s.cyclesAvg >= k * s.currentFreq
            else exists l :: l in h && 1000 * l >= k * s.currentFreq
  {
    MaxOfIsMax(h);
    AtLeastIff(1000 * (if h == [] then s.cyclesAvg else MaxOf(h)), s.currentFreq, k);
    if h != [] && 1000 * MaxOf(h) >= k * s.currentFreq {
      assert MaxOf(h) in h;
    }
  }

  /** A load limit that is not negative is exceeded as over the integers; a negative one
      is never exceeded. */
  lemma OverloadedIff(p: Params, s: Sample)
    requires 0 - TWO31 <= p.loadMax < TWO31 && s.rtLoad < TWO63
    ensures Overloaded(p, s) <==> 0 <= p.loadMax < s.rtLoad
  {
  }

  // ----- the frequency asked for --------------------------------------------------------

  /** A device that is too busy gets a third of the maximum on top of what it has, not
      damped by what it asked for before. */
  lemma OverloadIsUndamped(p: Params, s: Sample, h: seq<nat>, avg: int)
    requires p.loadTarget > 0 && s.currentFreq > 0 && Overloaded(p, s) && !Holds(p, s)
    ensures Scaled(p, s, h, avg) == Clamp((s.previousFreq / MHZ + s.maxFreq / 3 / MHZ) * MHZ, s.minFreq, s.maxFreq)
  {
    DampEnds(Request(p, s, h), NextAverage(p, s, h, avg));
  }

  /** A device on target asks for the frequency it has; at twice its target it asks for
      the biased share more, up to a third of the maximum. */
  lemma RequestAtTargets(p: Params, s: Sample, h: seq<nat>)
    requires p.loadTarget > 0 && p.bias >= 0 && s.currentFreq > 0 && !Overloaded(p, s)
    ensures Busyness(s, h) == p.loadTarget ==> Request(p, s, h) == s.previousFreq / MHZ
    ensures Busyness(s, h) == 2 * p.loadTarget ==>
              var f := s.previousFreq / MHZ; Request(p, s, h) == f + Min(p.bias * f / 100, s.maxFreq / 3 / MHZ)
  {
    BoostAtTargets(p.loadTarget, p.bias, s.previousFreq / MHZ);
  }

  /** The clamp is the nearest frequency within the limits. */
  lemma ClampNearest(freq: int, minFreq: nat, maxFreq: nat, x: nat)
    requires minFreq <= x <= maxFreq
    ensures var c := Clamp(freq, minFreq, maxFreq);
            minFreq <= c <= maxFreq && Max(freq - c, c - freq) <= Max(freq - x, x - freq)
  {
  }

  /** With a positive minimum nothing is asked for exactly within the blocking window, or
      while no frequency is known. */
  lemma AsksUnless(p: Params, s: Sample, h: seq<nat>, avg: int)
    requires p.loadTarget > 0 && s.currentFreq > 0 && 0 < s.minFreq <= s.maxFreq
    ensures Scaled(p, s, h, avg) == 0 <==> s.dt < p.blockWindow || s.previousFreq == 0
  {
  }

  /** What an evaluation sees: the time since the last change, the share of busy time in
      thousandths, and the smoothed load: a steady load stays, without smoothing it is
      the present one, and otherwise it lies between the two. */
  lemma SampleMeaning(g: Governor, e: Evaluation)
    requires e.total > 0
    ensures var s, norm := g.SampleAt(e), e.current * e.busy / e.total;
            && (e.now >= g.lastScale ==> g.lastScale + s.dt == e.now)
            && s.previousFreq == e.previousFreq && s.currentFreq == e.current
            && s.minFreq == e.minFreq && s.maxFreq == e.maxFreq
            && (e.busy == e.total ==> s.rtLoad == 1000) && (e.busy == 0 ==> s.rtLoad == 0)
            && (g.params.smooth == 0 ==> s.cyclesAvg == norm)
            && Min(g.cyclesAvg, norm) <= s.cyclesAvg <= Max(g.cyclesAvg, norm)
            && s.cyclesAvg * (g.params.smooth + 1) <= g.cyclesAvg * g.params.smooth + norm
               < (s.cyclesAvg + 1) * (g.params.smooth + 1)
  {
    DivModUnique(1000 * e.total, e.total, 1000, 0);
    DivModUnique(0, e.total, 0, 0);
    MeanBetween(g.cyclesAvg, e.current * e.busy / e.total, g.params.smooth);
  }

  lemma QuotientBetween(x: nat, d: nat, lo: nat, hi: nat)
    requires d > 0 && lo * d <= x < (hi + 1) * d
    ensures lo <= x / d <= hi && x / d * d <= x < (x / d + 1) * d
  {
    AtLeastIff(x, d, lo);
    AtLeastIff(x, d, hi + 1);
    AtLeastIff(x, d, x / d);
    AtLeastIff(x, d, x / d + 1);
  }

  lemma SumBetween(a: nat, b: nat, k: nat)
    ensures Min(a, b) * (k + 1) <= a * k + b < (Max(a, b) + 1) * (k + 1)
  {
    var lo, hi := Min(a, b), Max(a, b);
    MulMonotone(lo, a, k);
    MulMonotone(a, hi, k);
    assert lo * (k + 1) == lo * k + lo;
    assert (hi + 1) * (k + 1) == hi * k + hi + k + 1;
  }

  lemma MeanBetween(a: nat, b: nat, k: nat)
    ensures var m := (a * k + b) / (k + 1);
            && Min(a, b) <= m <= Max(a, b) && (k == 0 ==> m == b)
            && m * (k + 1) <= a * k + b < (m + 1) * (k + 1)
  {
    SumBetween(a, b, k);
    QuotientBetween(a * k + b, k + 1, Min(a, b), Max(a, b));
  }
}
