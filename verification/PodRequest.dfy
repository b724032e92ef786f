/** The pod-scaling governor's frequency request: boost, smoothing, damping, clamping
    and the choice of a table entry, in the integer widths of the driver. */
module PodRequest {
  import opened Bytes
  import opened PodGovernor

  // ----- machine arithmetic ---------------------------------------------------------

  /** Signed division, towards zero. */
  function TruncDiv(a: int, b: int): int
    requires b > 0
  {
    if a >= 0 then a / b else -((-a) / b)
  }

  function ToInt32(x: int): int {
    var m := x % TWO32;
    if m < TWO31 then m else m - TWO32
  }

  /** `freq_avg = freq_avg * p_smooth + res; freq_avg /= p_smooth + 1` with a 32-bit
      signed average and a 32-bit unsigned p_smooth. */
  function Smooth(avg: int, smooth: nat, res: int): int
    requires smooth + 1 < TWO32
  {
    var sum := ToInt32((avg % TWO32) * smooth % TWO32 + res);
    ToInt32((sum % TWO32) / (smooth + 1))
  }

  lemma Fits32(x: int)
    requires 0 <= x < TWO31
    ensures ToInt32(x) == x && x % TWO32 == x
  {
  }

  /** With a product and a sum below 2^31 no step wraps around. */
  lemma SmoothPlain(avg: int, smooth: nat, res: int)
    requires smooth + 1 < TWO32 && 0 <= avg < TWO31 && 0 <= res && 0 <= avg * smooth <= avg * smooth + res < TWO31
    ensures Smooth(avg, smooth, res) == (avg * smooth + res) / (smooth + 1)
  {
    var p := avg * smooth;
    Fits32(avg);
    Fits32(p);
    Fits32(p + res);
    FloorShrinks(p + res, smooth + 1);
    Fits32((p + res) / (smooth + 1));
  }

  lemma FloorShrinks(x: nat, d: nat)
    requires d > 0
    ensures 0 <= x / d <= x
  {
    MulMonotone(1, d, x);
    Quotient(x, d, x);
  }

  lemma SmoothExact(avg: int, smooth: nat, res: int, bound: nat)
    requires smooth + 1 < TWO32
    requires 0 <= avg <= bound && 0 <= res <= bound && bound * (smooth + 1) < TWO31
    ensures Smooth(avg, smooth, res) == (avg * smooth + res) / (smooth + 1)
    ensures 0 <= Smooth(avg, smooth, res) <= bound
  {
    MulMonotone(avg, bound, smooth);
    MulMonotone(0, avg, smooth);
    assert bound * (smooth + 1) == bound * smooth + bound;
    SmallBound(bound, smooth);
    SmoothPlain(avg, smooth, res);
    Quotient(avg * smooth + res, smooth + 1, bound);
  }

  lemma SmallBound(bound: nat, smooth: nat)
    requires bound * (smooth + 1) < TWO31
    ensures bound < TWO31
  {
  }

  /** A sum of at most d shares of at most `bound`, divided by d. */
  lemma Quotient(sum: nat, d: nat, bound: nat)
    requires d > 0 && sum <= bound * d
    ensures 0 <= sum / d <= bound
  {
  }

  /** What is left of a frequency that passes through an int into an unsigned long. */
  function Stored(freq: nat): nat {
    ToInt32(freq) % TWO64
  }

  /** The frequencies that survive it. */
  predicate Plain(freq: nat) {
    freq < TWO31 || TWO64 - TWO31 <= freq < TWO64
  }

  /** The low 32 bits stay, with their top bit copied upwards. */
  lemma StoredIs(freq: nat)
    ensures var low := freq % TWO32; Stored(freq) == if low < TWO31 then low else TWO64 - TWO32 + low
  {
    var low := freq % TWO32;
    if low < TWO31 {
      DivModUnique(low, TWO64, 0, low);
    } else {
      DivModUnique(low - TWO32, TWO64, -1, TWO64 - TWO32 + low);
    }
  }

  lemma StoredExactIff(freq: nat)
    ensures Stored(freq) == freq <==> Plain(freq)
  {
    StoredIs(freq);
    var high, low := freq / TWO32, freq % TWO32;
    assert freq == high * TWO32 + low;
    assert low < TWO31 ==> (freq == low <==> high == 0);
    assert freq == TWO64 - TWO32 + low <==> high == TWO32 - 1;
  }

  // ----- the request -------------------------------------------------------------------

  /** Bias times frequency times relative overload, before the clamp. */
  function RawBoost(busyness: nat, target: int, bias: int, freq: nat): int
    requires target > 0
  {
    TruncDiv((busyness - target) * (bias * freq), 100 * target)
  }

  /** At zero load the boost is the biased share of the frequency, taken away. */
  lemma BoostAtIdle(target: int, bias: nat, freq: nat)
    requires target > 0
    ensures RawBoost(0, target, bias, freq) == -(bias * freq / 100)
  {
    var x := bias * freq;
    DivModFacts(x, 100);
    var q, r := x / 100, x % 100;
    assert target * x == q * (100 * target) + target * r;
    MulMonotone(r, 99, target);
    MulMonotone(0, r, target);
    DivModUnique(target * x, 100 * target, q, target * r);
    assert (0 - target) * x == -(target * x);
    if x == 0 {
      assert (0 - target) * x == 0;
    } else {
      MulMonotone(1, x, target);
    }
  }

  /** The request before damping is nonnegative at every load exactly when the bias
      takes away no more than the frequency itself; a bias of up to 100 never does. */
  lemma RequestNonnegativeIff(target: int, bias: nat, freq: nat)
    requires target > 0
    ensures (forall busyness: nat :: freq + RawBoost(busyness, target, bias, freq) >= 0) <==> bias * freq / 100 <= freq
    ensures bias <= 100 ==> bias * freq / 100 <= freq
  {
    BoostAtIdle(target, bias, freq);
    var x := bias * freq;
    forall busyness: nat ensures RawBoost(busyness, target, bias, freq) >= RawBoost(0, target, bias, freq) {
      BoostGrows(busyness, target, x);
    }
    if bias <= 100 {
      MulMonotone(bias, 100, freq);
    }
  }

  lemma BoostGrows(busyness: nat, target: int, x: nat)
    requires target > 0
    ensures TruncDiv((busyness - target) * x, 100 * target) >= TruncDiv((0 - target) * x, 100 * target)
  {
    MulMonotone(0 - target, busyness - target, x);
    var a, b, d := (0 - target) * x, (busyness - target) * x, 100 * target;
    DivOrder(a, b, d);
  }

  lemma DivOrder(a: int, b: int, d: int)
    requires d > 0 && a <= b
    ensures TruncDiv(a, d) <= TruncDiv(b, d)
  {
    if a >= 0 {
      FloorOrder(a, b, d);
    } else if b < 0 {
      FloorOrder(-b, -a, d);
    } else {
      FloorOrder(0, -a, d);
      FloorOrder(0, b, d);
      DivModUnique(0, d, 0, 0);
    }
  }

  lemma FloorOrder(a: int, b: int, d: int)
    requires d > 0 && 0 <= a <= b
    ensures 0 <= a / d <= b / d
  {
    DivModFacts(a, d);
    DivModFacts(b, d);
    Quotient(a, d, b / d + 1);
    if a / d > b / d {
      MulMonotone(b / d + 1, a / d, d);
    }
  }

  /** A bias above 100 can ask for a negative frequency. */
  lemma BiasAbove100()
    ensures 500 + RawBoost(0, 700, 150, 500) < 0
  {
  }

  /** The smoothed and damped request in Hz, before the limits. */
  function Damped(damp: int, res: int, avg: int): int {
    TruncDiv(damp * res + (10 - damp) * avg, 10)
  }

  lemma DampedBetween(damp: int, res: int, avg: int, bound: nat)
    requires 0 <= damp <= 10 && 0 <= res <= bound && 0 <= avg <= bound
    ensures 0 <= Damped(damp, res, avg) <= bound
    ensures res == avg ==> Damped(damp, res, avg) == res
  {
  }

  /** `scaling_limit` compares as unsigned long. */
  function ScalingLimit(freq: int, minFreq: nat, maxFreq: nat): nat {
    var u := freq % TWO64;
    if u < minFreq then minFreq else if u > maxFreq then maxFreq else u
  }

  function Clamp(freq: int, minFreq: nat, maxFreq: nat): int {
    if freq < minFreq then minFreq else if freq > maxFreq then maxFreq else freq
  }

  /** `get_freq_range`: the ends of the table and the OPP limits. */
  method GetFreqRange(table: seq<nat>, scalingMin: nat, scalingMax: nat) returns (minFreq: nat, maxFreq: nat)
    requires table != []
    ensures var low, high := Min(table[0], table[|table| - 1]), Max(table[0], table[|table| - 1]);
            maxFreq == Min(high, scalingMax) && minFreq == Min(Max(low, scalingMin), maxFreq)
  {
    var last := table[|table| - 1];
    if table[0] < last {
      minFreq, maxFreq := table[0], last;
    } else {
      minFreq, maxFreq := last, table[0];
    }
    minFreq := Max(minFreq, scalingMin);
    maxFreq := Min(maxFreq, scalingMax);
    if minFreq > maxFreq {
      minFreq := maxFreq;
    }
  }

  /** The governor's tunables. */
  datatype Params = Params(blockWindow: nat, smooth: nat, damp: int, loadMax: int, loadTarget: int, bias: int)

  /** What one evaluation sees. */
  datatype Sample = Sample(dt: nat, previousFreq: nat, currentFreq: nat, maxFreq: nat, minFreq: nat,
                           cyclesAvg: nat, rtLoad: nat)

  /** The tunables under which the request is bounded by `bound` MHz: none of the
      32-bit steps wraps around. */
  ghost predicate InRange(p: Params, s: Sample, bound: nat) {
    && p.loadTarget > 0 && 0 <= p.bias <= 100 && 0 <= p.damp <= 10 && p.smooth + 1 < TWO32
    && s.previousFreq / MHZ + s.maxFreq / 3 / MHZ <= bound && bound * (p.smooth + 1) < TWO31
  }

  function Busyness(s: Sample, h: seq<nat>): nat
    requires s.currentFreq > 0
  {
    1000 * (if h == [] then s.cyclesAvg else MaxOf(h)) / s.currentFreq
  }

  /** The load limit is compared as an unsigned long, so a negative one is never exceeded. */
  predicate Overloaded(p: Params, s: Sample) {
    s.rtLoad > p.loadMax % TWO64
  }

  /** The request in MHz: what a too busy device gets, and the biased boost otherwise. */
  function Request(p: Params, s: Sample, h: seq<nat>): int
    requires p.loadTarget > 0 && s.currentFreq > 0
  {
    var freq, maxBoost := s.previousFreq / MHZ, s.maxFreq / 3 / MHZ;
    freq + if Overloaded(p, s) then maxBoost else Min(RawBoost(Busyness(s, h), p.loadTarget, p.bias, freq), maxBoost)
  }

  /** Too soon after the last change, or no frequency known yet. */
  predicate Holds(p: Params, s: Sample) {
    s.dt < p.blockWindow || s.previousFreq == 0
  }

  /** The running average of requests, over the integers. */
  function NextAverage(p: Params, s: Sample, h: seq<nat>, avg: int): int
    requires p.loadTarget > 0 && s.currentFreq > 0
  {
    if Holds(p, s) then avg else (avg * p.smooth + Request(p, s, h)) / (p.smooth + 1)
  }

  /** The frequency asked for, 0 for no change; a real overload is not damped. */
  function Scaled(p: Params, s: Sample, h: seq<nat>, avg: int): int
    requires p.loadTarget > 0 && s.currentFreq > 0
  {
    if Holds(p, s) then 0
    else
      var damp := if Overloaded(p, s) then 10 else p.damp;
      Clamp(Damped(damp, Request(p, s, h), NextAverage(p, s, h, avg)) * MHZ, s.minFreq, s.maxFreq)
  }

  lemma RequestBounded(p: Params, s: Sample, h: seq<nat>, bound: nat)
    requires InRange(p, s, bound) && s.currentFreq > 0
    ensures 0 <= Request(p, s, h) <= bound
  {
    var freq := s.previousFreq / MHZ;
    RequestNonnegativeIff(p.loadTarget, p.bias, freq);
    assert freq + RawBoost(Busyness(s, h), p.loadTarget, p.bias, freq) >= 0;
  }

  // ----- the table ------------------------------------------------------------------------

  /** The first entry not below the target, the table size when there is none. */
  function FirstUp(table: seq<nat>, target: int): (k: nat)
    ensures k <= |table| && (forall i :: 0 <= i < k ==> table[i] < target) && (k < |table| ==> table[k] >= target)
  {
    if table == [] || table[0] >= target then 0 else 1 + FirstUp(table[1..], target)
  }

  /** `freqlist_up`: the entry `steps` above the first that is not below the target,
      returned as an int. */
  method FreqlistUp(table: seq<nat>, target: nat, steps: nat) returns (freq: nat)
    requires table != []
    ensures var entry := table[Min(|table| - 1, FirstUp(table, target) + steps)];
            freq == Stored(entry) && (freq == entry <==> Plain(entry))
  {
    var i := 0;
    while i < |table| && table[i] < target
      invariant i <= |table| && forall k :: 0 <= k < i ==> table[k] < target
    {
      i := i + 1;
    }
    assert !(FirstUp(table, target) < i) && !(i < FirstUp(table, target));
    var pos := Min(|table| - 1, i + steps);
    StoredExactIff(table[pos]);
    freq := ToInt32(table[pos]) % TWO64;
  }

  /** The smallest entry not below the target, or the last one when all are. */
  ghost predicate IsUpEntry(table: seq<nat>, target: int, freq: nat) {
    && freq in table
    && (forall e :: e in table && target <= e ==> target <= freq <= e)
    && (forall e :: e in table && freq < target ==> e <= freq)
  }

  function UpEntry(table: seq<nat>, target: int): nat
    requires table != []
  {
    table[Min(|table| - 1, FirstUp(table, target))]
  }

  /** On an ascending table that is what `freqlist_up` finds without further steps. */
  lemma UpEntryFound(table: seq<nat>, target: int)
    requires table != [] && Ascending(table)
    ensures IsUpEntry(table, target, UpEntry(table, target))
    ensures forall freq :: IsUpEntry(table, target, freq) ==> freq == UpEntry(table, target)
  {
    var at, last := FirstUp(table, target), |table| - 1;
    forall k | 0 <= k <= last
      ensures target <= table[k] ==> at <= k && table[at] <= table[k]
      ensures table[k] <= table[last]
    {
      assert k == last || table[k] < table[last];
    }
    forall freq | IsUpEntry(table, target, freq) ensures freq == UpEntry(table, target) {
      assert UpEntry(table, target) in table;
    }
  }

  /** On an ascending table the governor's choice for a clamped request is the smallest
      entry not below the request if and only if that entry survives the int. The entry
      respects the maximum exactly when the table has one between request and maximum; a
      maximum that is itself an entry always provides one. */
  method ChooseFrequency(table: seq<nat>, request: nat, minFreq: nat, maxFreq: nat) returns (freq: nat)
    requires table != [] && Ascending(table) && minFreq <= request <= maxFreq
    ensures var entry := UpEntry(table, request);
            && freq == Stored(entry) && (IsUpEntry(table, request, freq) <==> Plain(entry))
            && (request <= entry <= maxFreq <==> exists e :: e in table && request <= e <= maxFreq)
    ensures maxFreq in table && maxFreq < TWO31 ==> minFreq <= request <= freq <= maxFreq
  {
    freq := FreqlistUp(table, request, 0);
    UpEntryFound(table, request);
  }

  /** Frequencies from 2^31 Hz on do not survive: a request of 1.5 GHz on a table of
      1 and 2.2 GHz gives neither entry, and more than the maximum. */
  lemma HighFrequencyIsLost()
    ensures var table := [1_000_000_000, 2_200_000_000];
            && UpEntry(table, 1_500_000_000) == 2_200_000_000
            && Stored(2_200_000_000) == TWO64 - 2_094_967_296 && Stored(2_200_000_000) !in table
  {
    var table := [1_000_000_000, 2_200_000_000];
    assert FirstUp(table, 1_500_000_000) == 1;
  }

  // ----- one evaluation ---------------------------------------------------------------------

  /** A pending request from a kernel thread, or none. */
  datatype Adjustment = DeviceRequest | Local(value: nat)

  datatype Evaluation = Evaluation(suspended: bool, enable: bool, user: bool, freqRequest: nat, adjustment: Adjustment,
                                   current: nat, busy: nat, total: nat, previousFreq: nat, now: nat,
                                   minFreq: nat, maxFreq: nat)

  /** The periodic evaluation proper, none of the early exits. */
  predicate Evaluates(e: Evaluation) {
    !e.suspended && e.enable && !e.user && e.total > 0 && e.adjustment.DeviceRequest?
  }

  /** The outcome for a scaled request: no change for 0, otherwise the entry above it,
      provided it survives the int. */
  ghost predicate Chosen(table: seq<nat>, e: Evaluation, scaled: int, freq: nat)
    requires table != []
  {
    if scaled == 0 then freq == e.current
    else freq == Stored(UpEntry(table, scaled)) && (IsUpEntry(table, scaled, freq) <==> Plain(UpEntry(table, scaled)))
  }

  class Governor {
    const params: Params
    const history: History
    var freqAvg: int
    var cyclesAvg: nat
    var rtLoad: nat
    var lastScale: nat

    constructor (params: Params, history: History)
      ensures this.params == params && this.history == history && freqAvg == 0 && cyclesAvg == 0
    {
      this.params, this.history := params, history;
      freqAvg, cyclesAvg, rtLoad, lastScale := 0, 0, 0, 0;
    }

    /** The sample an evaluation at `now` works on once the load has been recorded. */
    function SampleAt(e: Evaluation): Sample
      requires e.total > 0 && params.smooth + 1 > 0
      reads this
    {
      var norm := e.current * e.busy / e.total;
      Sample(Max(e.now - lastScale, 0), e.previousFreq, e.current, e.maxFreq, e.minFreq,
             (cyclesAvg * params.smooth + norm) / (params.smooth + 1), 1000 * e.busy / e.total)
    }

    /** `nvhost_pod_estimate_freq` */
    method EstimateFreq(e: Evaluation, table: seq<nat>, ghost bound: nat) returns (freq: nat, dontScale: bool)
      requires history.Valid() && 0 <= freqAvg <= bound
      requires Evaluates(e) ==>
                 && e.current > 0 && e.minFreq <= e.maxFreq && InRange(params, SampleAt(e), bound)
                 && table != [] && Ascending(table)
      modifies this, history, history.buf
      ensures history.Valid() && 0 <= freqAvg <= bound
      ensures dontScale <==> !e.suspended && !e.enable && e.previousFreq == DEVFREQ_MAX_FREQ
      ensures e.suspended ==> freq == DEVFREQ_MIN_FREQ && history.Window() == [] && freqAvg == 0 && lastScale == e.now
      ensures !Evaluates(e) && !e.suspended ==>
                && history.Window() == old(history.Window()) && freqAvg == old(freqAvg) && cyclesAvg == old(cyclesAvg)
                && rtLoad == old(rtLoad) && lastScale == old(lastScale)
                && freq == (if !e.enable then DEVFREQ_MAX_FREQ else if e.user then e.freqRequest
                            else if e.total == 0 then e.current
                            else Clamp(e.adjustment.value, e.minFreq, e.maxFreq))
      ensures Evaluates(e) ==>
                var s := old(SampleAt(e));
                && cyclesAvg == s.cyclesAvg && rtLoad == s.rtLoad
                && (history.size > 0 ==>
                      history.Window() == LastN(old(history.Window()) + [e.current * e.busy / e.total], history.size))
                && freqAvg == NextAverage(params, s, history.Window(), old(freqAvg))
                && Chosen(table, e, Scaled(params, s, history.Window(), old(freqAvg)), freq)
                && lastScale == (if freq == e.current then old(lastScale) else e.now)
      ensures Evaluates(e) && e.maxFreq in table && e.maxFreq < TWO31 && e.minFreq <= e.current <= e.maxFreq ==>
                e.minFreq <= freq <= e.maxFreq
    {
      dontScale := false;
      if e.suspended {
        lastScale := e.now;
        history.Clear();
        freqAvg := 0;
        return DEVFREQ_MIN_FREQ, false;
      }
      if !e.enable {
        return DEVFREQ_MAX_FREQ, e.previousFreq == DEVFREQ_MAX_FREQ;
      }
      if e.user {
        return e.freqRequest, false;
      }
      if e.total == 0 {
        return e.current, false;
      }
      if e.adjustment.Local? {
        return Clamp(e.adjustment.value, e.minFreq, e.maxFreq), false;
      }
      freq := Evaluate(e, table, bound);
    }

    /** The periodic evaluation: record the load, then look for a new frequency. */
    method Evaluate(e: Evaluation, table: seq<nat>, ghost bound: nat) returns (freq: nat)
      requires history.Valid() && 0 <= freqAvg <= bound && table != [] && Ascending(table) && e.minFreq <= e.maxFreq
      requires e.total > 0 && e.current > 0 && InRange(params, SampleAt(e), bound)
      modifies this, history, history.buf
      ensures history.Valid() && 0 <= freqAvg <= bound
      ensures var s := old(SampleAt(e));
              && cyclesAvg == s.cyclesAvg && rtLoad == s.rtLoad
              && (history.size > 0 ==>
                    history.Window() == LastN(old(history.Window()) + [e.current * e.busy / e.total], history.size))
              && freqAvg == NextAverage(params, s, history.Window(), old(freqAvg))
              && Chosen(table, e, Scaled(params, s, history.Window(), old(freqAvg)), freq)
              && lastScale == (if freq == e.current then old(lastScale) else e.now)
      ensures e.maxFreq in table && e.maxFreq < TWO31 && e.minFreq <= e.current <= e.maxFreq ==>
                e.minFreq <= freq <= e.maxFreq
    {
      var s := SampleAt(e);
      cyclesAvg := s.cyclesAvg;
      rtLoad := s.rtLoad;
      history.Record(e.current * e.busy / e.total);
      var res := ScalingStateCheck(s, bound);
      if res == 0 {
        return e.current;
      }
      freq := ChooseFrequency(table, res, e.minFreq, e.maxFreq);
      if freq != e.current {
        lastScale := e.now;
      }
    }

    /** Load, boost and damping of one evaluation. */
    method ComputeRequest(s: Sample) returns (request: int, damp: int)
      requires history.Valid() && params.loadTarget > 0 && s.currentFreq > 0
      ensures request == Request(params, s, history.Window())
      ensures damp == if Overloaded(params, s) then 10 else params.damp
    {
      var freq := s.previousFreq / MHZ;
      var maxBoost := s.maxFreq / 3 / MHZ;
      var busyness := 1000 * s.cyclesAvg / s.currentFreq;
      if history.size > 0 && history.count > 0 {
        busyness := 1000 * history.recentHigh / s.currentFreq;
      }
      var boost := maxBoost;
      damp := params.damp;
      if s.rtLoad > params.loadMax % TWO64 {
        damp := 10;
      } else {
        boost := (busyness - params.loadTarget) * (params.bias * freq);
        boost := TruncDiv(boost, 100 * params.loadTarget);
        boost := if boost < maxBoost then boost else maxBoost;
      }
      request := freq + boost;
    }

    /** `scaling_state_check`: 0 for no change, otherwise a frequency within the limits
        that is the damped request, clamped as if over the integers. */
    method ScalingStateCheck(s: Sample, ghost bound: nat) returns (res: nat)
      requires history.Valid() && InRange(params, s, bound) && 0 <= freqAvg <= bound
      requires s.currentFreq > 0 && s.minFreq <= s.maxFreq
      modifies this`freqAvg
      ensures 0 <= freqAvg <= bound
      ensures freqAvg == NextAverage(params, s, history.Window(), old(freqAvg))
      ensures res == Scaled(params, s, history.Window(), old(freqAvg))
      ensures res != 0 ==> s.minFreq <= res <= s.maxFreq
    {
      if s.dt < params.blockWindow || s.previousFreq == 0 {
        return 0;
      }
      var request, damp := ComputeRequest(s);
      RequestBounded(params, s, history.Window(), bound);
      SmoothExact(freqAvg, params.smooth, request, bound);
      freqAvg := Smooth(freqAvg, params.smooth, request);
      DampedBetween(damp, request, freqAvg, bound);
      SmallBound(bound, params.smooth);
      var hz := Damped(damp, request, freqAvg) * MHZ;
      LimitIsClampIff(hz, s.minFreq, s.maxFreq);
      res := ScalingLimit(hz, s.minFreq, s.maxFreq);
    }
  }

  /** For a signed 64-bit request the unsigned comparison is the clamp if and only if the
      request is not negative or the limits leave no choice (a limit beyond 2^63 can hide
      the difference); otherwise a negative request becomes the maximum. */
  lemma LimitIsClampIff(hz: int, minFreq: nat, maxFreq: nat)
    requires 0 - TWO63 <= hz < TWO63 && minFreq <= maxFreq < TWO64
    ensures ScalingLimit(hz, minFreq, maxFreq) == Clamp(hz, minFreq, maxFreq)
            <==> hz >= 0 || minFreq == maxFreq || hz + TWO64 <= minFreq
    ensures hz < 0 && maxFreq < TWO63 ==> ScalingLimit(hz, minFreq, maxFreq) == maxFreq
    ensures minFreq <= ScalingLimit(hz, minFreq, maxFreq) <= maxFreq
  {
    assert hz < 0 ==> hz % TWO64 == hz + TWO64;
  }
}
