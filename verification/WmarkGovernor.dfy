/** The watermark governor: thresholds around the current frequency, the step each
    watermark event takes, and what sequences of events a constant load can cause. */
module WmarkGovernor {
  import opened Bytes

  datatype Event = AvgBelow | AvgAbove | ConsecBelow | ConsecAbove

  /** Marks are only meaningful while their side is enabled. */
  datatype Config = Config(avgUpper: nat, avgLower: nat, consecUpper: nat, consecLower: nat,
                           upperEnabled: bool, lowerEnabled: bool)

  /** Frequency table, tunables and limits. */
  datatype Setup = Setup(table: seq<nat>, loadTarget: nat, upMargin: nat, downMargin: nat,
                         upSteps: nat, downSteps: nat, minFreq: nat, maxFreq: nat)

  /** A mark is kept in 32 bits. */
  function Mark(freq: nat, share: nat): nat {
    freq / 1000 * share % TWO32
  }

  /** The marks programmed while running at table entry i. */
  function MarksAt(s: Setup, i: nat): Config
    requires i < |s.table|
  {
    var cur := s.table[i];
    var prev := Max(s.table[Max(i - 1, 0)], s.minFreq);
    var avgUpper, avgLower := Mark(cur, s.loadTarget), Mark(prev, s.loadTarget);
    var upper, lower := cur < s.maxFreq, cur > s.minFreq;
    Config(if upper then avgUpper else 0, if lower then avgLower else 0,
           if upper then (avgUpper + cur / 1000 * s.upMargin) % TWO32 else 0,
           if lower then (avgLower - prev / 1000 * s.downMargin) % TWO32 else 0,
           upper, lower)
  }

  /** The index an event asks for. */
  function TargetIndex(s: Setup, i: nat, event: Event): (k: nat)
    requires i < |s.table|
    ensures k < |s.table|
  {
    match event
    case AvgBelow => Max(0, i - 1)
    case AvgAbove => Min(|s.table| - 1, i + 1)
    case ConsecBelow => Max(0, i - s.downSteps)
    case ConsecAbove => Min(|s.table| - 1, i + s.upSteps)
  }

  /** How many entries an event moves at most. */
  function StepSize(s: Setup, event: Event): nat {
    match event
    case AvgBelow | AvgAbove => 1
    case ConsecBelow => s.downSteps
    case ConsecAbove => s.upSteps
  }

  /** Entry k is as far from entry i as the event allows, in its direction: the whole
      step, or less at the end of the table. */
  predicate StepsTo(s: Setup, i: nat, event: Event, k: nat) {
    if Down(event) then k <= i && i - k <= StepSize(s, event) && (i - k == StepSize(s, event) || k == 0)
    else i <= k && k - i <= StepSize(s, event) && (k - i == StepSize(s, event) || k == |s.table| - 1)
  }

  class WmarkData {
    var currFreqIndex: nat
    var config: Config

    constructor ()
      ensures currFreqIndex == 0
    {
      currFreqIndex, config := 0, Config(0, 0, 0, 0, false, false);
    }

    /** `devfreq_get_freq_index`: the first entry that is not below the frequency, the
        table size when there is none. */
    method GetFreqIndex(table: seq<nat>, freq: nat) returns (i: nat)
      ensures i <= |table| && (forall k :: 0 <= k < i ==> table[k] < freq) && (i < |table| ==> table[i] >= freq)
    {
      i := 0;
      while i < |table| && table[i] < freq
        invariant i <= |table| && forall k :: 0 <= k < i ==> table[k] < freq
      {
        i := i + 1;
      }
    }

    /** `devfreq_update_wmark_threshold`. When no entry reaches the current frequency the
        index is the table size and the source reads behind the table: what it then
        programs is not modelled, and `inTable` says so. */
    method UpdateWmarkThreshold(s: Setup, currentFreq: nat) returns (inTable: bool)
      modifies this
      ensures inTable <==> exists k :: 0 <= k < |s.table| && s.table[k] >= currentFreq
      ensures inTable ==> currFreqIndex < |s.table| && config == MarksAt(s, currFreqIndex)
      ensures inTable ==> s.table[currFreqIndex] >= currentFreq && forall k :: 0 <= k < currFreqIndex ==> s.table[k] < currentFreq
      ensures Ascending(s.table) && currentFreq in s.table ==> inTable && s.table[currFreqIndex] == currentFreq
      ensures !inTable ==> currFreqIndex == |s.table| && config == old(config)
    {
      currFreqIndex := GetFreqIndex(s.table, currentFreq);
      inTable := currFreqIndex < |s.table|;
      if Ascending(s.table) && currentFreq in s.table {
        EntryFound(s.table, currentFreq, currFreqIndex);
      }
      if !inTable {
        return;
      }
      var currFreq := s.table[currFreqIndex];
      config := Config(0, 0, 0, 0, false, false);
      if currFreq < s.maxFreq {
        var avgUpper := currFreq / 1000 * s.loadTarget % TWO32;
        var consecUpper := (avgUpper + currFreq / 1000 * s.upMargin) % TWO32;
        config := config.(avgUpper := avgUpper, consecUpper := consecUpper, upperEnabled := true);
      }
      if currFreq > s.minFreq {
        var prevFreq := Max(s.table[Max(currFreqIndex - 1, 0)], s.minFreq);
        var avgLower := prevFreq / 1000 * s.loadTarget % TWO32;
        var consecLower := (avgLower - prevFreq / 1000 * s.downMargin) % TWO32;
        config := config.(avgLower := avgLower, consecLower := consecLower, lowerEnabled := true);
      }
    }

    /** On a sorted table a frequency that is an entry is found. */
    lemma EntryFound(table: seq<nat>, freq: nat, i: nat)
      requires Ascending(table) && freq in table && i <= |table|
      requires (forall k :: 0 <= k < i ==> table[k] < freq) && (i < |table| ==> table[i] >= freq)
      ensures i < |table| && table[i] == freq
    {
      var k :| 0 <= k < |table| && table[k] == freq;
      assert !(k < i) && !(i < k);
    }

    /** `devfreq_tegra_wmark_target_freq` */
    method TargetFreq(s: Setup, event: Event) returns (freq: nat)
      requires currFreqIndex < |s.table|
      ensures freq == s.table[TargetIndex(s, currFreqIndex, event)]
      ensures Ascending(s.table) ==> if Down(event) then freq <= s.table[currFreqIndex] else freq >= s.table[currFreqIndex]
      ensures exists k :: 0 <= k < |s.table| && freq == s.table[k] && StepsTo(s, currFreqIndex, event, k)
    {
      var target := 0;
      match event {
        case AvgBelow => target := Max(0, currFreqIndex - 1);
        case AvgAbove => target := Min(|s.table| - 1, currFreqIndex + 1);
        case ConsecBelow => target := Max(0, currFreqIndex - s.downSteps);
        case ConsecAbove => target := Min(|s.table| - 1, currFreqIndex + s.upSteps);
      }
      freq := s.table[target];
      assert StepsTo(s, currFreqIndex, event, target);
    }
  }

  // ----- the order of the marks ---------------------------------------------------------

  /** Table ascending, limits table entries. */
  ghost predicate Valid(s: Setup, lo: nat, hi: nat) {
    lo <= hi < |s.table| && Ascending(s.table) && s.minFreq == s.table[lo] && s.maxFreq == s.table[hi]
  }

  /** No mark of the table needs more than 32 bits. */
  predicate Fits32(s: Setup, hi: nat)
    requires hi < |s.table|
  {
    s.table[hi] / 1000 * (s.loadTarget + s.upMargin) < TWO32
  }

  /** Marks of k kilohertz: share t, upper margin m, lower margin d. */
  lemma UpperOrder(k: nat, t: nat, m: nat)
    requires k * (t + m) < TWO32
    ensures 0 <= k * t == k * t % TWO32
    ensures (k * t % TWO32 + k * m) % TWO32 == k * t + k * m >= k * t
  {
    assert k * (t + m) == k * t + k * m;
    MulMonotone(0, k, m);
    MulMonotone(0, k, t);
  }

  lemma AverageOrder(p: nat, c: nat, t: nat)
    requires p <= c && c * t < TWO32
    ensures p * t % TWO32 <= c * t % TWO32
  {
    MulMonotone(p, c, t);
    MulMonotone(0, p, t);
  }

  lemma LowerOrder(k: nat, t: nat, d: nat)
    requires k * t < TWO32 && k * d < TWO32
    ensures (k * t % TWO32 - k * d) % TWO32 <= k * t % TWO32 <==> d <= t || k == 0
  {
    MulMonotone(0, k, t);
    MulMonotone(0, k, d);
    WrapsIff(k * t, k * d);
    ScaledOrder(k, d, t);
  }

  /** A difference of 32-bit values wraps exactly when it is negative. */
  lemma WrapsIff(a: nat, b: nat)
    requires a < TWO32 && b < TWO32
    ensures (a % TWO32 - b) % TWO32 <= a % TWO32 <==> b <= a
  {
  }

  lemma ScaledOrder(k: nat, d: nat, t: nat)
    ensures k * d <= k * t <==> d <= t || k == 0
  {
    if d <= t {
      MulMonotone(d, t, k);
    } else if k > 0 {
      MulMonotone(t + 1, d, k);
      assert k * (t + 1) == k * t + k;
    }
  }

  /** No mark of an entry up to hi needs more than 32 bits. */
  lemma EntryFits(s: Setup, hi: nat, freq: nat)
    requires hi < |s.table| && Fits32(s, hi) && freq <= s.table[hi]
    ensures freq / 1000 * (s.loadTarget + s.upMargin) < TWO32 && freq / 1000 * s.loadTarget < TWO32
  {
    var k := freq / 1000;
    MulMonotone(k, s.table[hi] / 1000, s.loadTarget + s.upMargin);
    MulMonotone(s.loadTarget, s.loadTarget + s.upMargin, k);
  }

  /** Between the limits, the lower average mark of an entry is the upper average mark
      of the entry below it: the hysteresis of the two is exactly zero. */
  lemma MarksMeet(s: Setup, lo: nat, hi: nat, i: nat)
    requires Valid(s, lo, hi) && lo < i <= hi
    ensures MarksAt(s, i).lowerEnabled && MarksAt(s, i - 1).upperEnabled
    ensures MarksAt(s, i).avgLower == MarksAt(s, i - 1).avgUpper
  {
  }

  /** The four marks are in order exactly when the consecutive lower mark does not
      wrap below zero: the down margin is at most the load target, or there is nothing
      to take it from. */
  lemma MarksOrderedIff(s: Setup, lo: nat, hi: nat, i: nat)
    requires Valid(s, lo, hi) && Fits32(s, hi) && lo < i < hi && s.table[i - 1] / 1000 * s.downMargin < TWO32
    ensures var m := MarksAt(s, i);
            m.consecLower <= m.avgLower <= m.avgUpper <= m.consecUpper
            <==> s.downMargin <= s.loadTarget || s.table[i - 1] / 1000 == 0
  {
    var cur, prev := s.table[i], s.table[i - 1];
    var c, p := cur / 1000, prev / 1000;
    assert prev >= s.minFreq && p <= c;
    EntryFits(s, hi, cur);
    EntryFits(s, hi, prev);
    UpperOrder(c, s.loadTarget, s.upMargin);
    LowerOrder(p, s.loadTarget, s.downMargin);
    AverageOrder(p, c, s.loadTarget);
  }

  // ----- events under a constant load ------------------------------------------------------

  /** An event fires when its mark is enabled and strictly crossed. */
  predicate Fires(s: Setup, i: nat, load: nat, event: Event)
    requires i < |s.table|
  {
    var m := MarksAt(s, i);
    match event
    case AvgBelow => m.lowerEnabled && load < m.avgLower
    case AvgAbove => m.upperEnabled && load > m.avgUpper
    case ConsecBelow => m.lowerEnabled && load < m.consecLower
    case ConsecAbove => m.upperEnabled && load > m.consecUpper
  }

  /** For which loads an event fires at entry i, over the integers: the entry's or the
      previous entry's kilohertz times the target, plus or less the margin. */
  lemma FiresIff(s: Setup, lo: nat, hi: nat, i: nat, load: nat)
    requires Valid(s, lo, hi) && Fits32(s, hi) && s.downMargin <= s.loadTarget && lo <= i <= hi
    ensures Fires(s, i, load, AvgAbove) <==> i < hi && load > s.table[i] / 1000 * s.loadTarget
    ensures Fires(s, i, load, ConsecAbove) <==> i < hi && load > s.table[i] / 1000 * (s.loadTarget + s.upMargin)
    ensures Fires(s, i, load, AvgBelow) <==> i > lo && load < s.table[i - 1] / 1000 * s.loadTarget
    ensures Fires(s, i, load, ConsecBelow) <==> i > lo && load < s.table[i - 1] / 1000 * (s.loadTarget - s.downMargin)
  {
    UpperMarks(s, lo, hi, i);
    if i > lo {
      LowerMarks(s, lo, hi, i);
    }
  }

  /** Limits need not be entries: when the minimum lies above the previous entry, the
      lower average mark is that of the minimum, so that it is reached from this entry. */
  lemma LowerMarkOfLimit(s: Setup, i: nat)
    requires i < |s.table| && Ascending(s.table) && s.minFreq < s.table[i] && s.minFreq / 1000 * s.loadTarget < TWO32
    requires i > 0 && s.table[i - 1] <= s.minFreq
    ensures MarksAt(s, i).lowerEnabled && MarksAt(s, i).avgLower == s.minFreq / 1000 * s.loadTarget
  {
    MulMonotone(0, s.minFreq / 1000, s.loadTarget);
  }

  lemma UpperMarks(s: Setup, lo: nat, hi: nat, i: nat)
    requires Valid(s, lo, hi) && Fits32(s, hi) && lo <= i <= hi
    ensures var m, k := MarksAt(s, i), s.table[i] / 1000;
            && (m.upperEnabled <==> i < hi) && (m.lowerEnabled <==> i > lo)
            && (i < hi ==> m.avgUpper == k * s.loadTarget && m.consecUpper == k * (s.loadTarget + s.upMargin))
  {
    EntryFits(s, hi, s.table[i]);
    UpperOrder(s.table[i] / 1000, s.loadTarget, s.upMargin);
    assert s.table[i] / 1000 * (s.loadTarget + s.upMargin)
        == s.table[i] / 1000 * s.loadTarget + s.table[i] / 1000 * s.upMargin;
  }

  lemma LowerMarks(s: Setup, lo: nat, hi: nat, i: nat)
    requires Valid(s, lo, hi) && Fits32(s, hi) && s.downMargin <= s.loadTarget && lo < i <= hi
    ensures var m, k := MarksAt(s, i), s.table[i - 1] / 1000;
            m.avgLower == k * s.loadTarget && m.consecLower == k * (s.loadTarget - s.downMargin)
  {
    var k := s.table[i - 1] / 1000;
    EntryFits(s, hi, s.table[i - 1]);
    LowerDifference(k, s.loadTarget, s.downMargin);
  }

  lemma LowerDifference(k: nat, t: nat, d: nat)
    requires d <= t && k * t < TWO32
    ensures k * t % TWO32 == k * t && (k * t % TWO32 - k * d) % TWO32 == k * (t - d)
  {
    MulMonotone(0, k, t);
    MulMonotone(0, k, d);
    MulMonotone(d, t, k);
    assert k * (t - d) == k * t - k * d;
  }

  predicate Down(event: Event) {
    event.AvgBelow? || event.ConsecBelow?
  }

  /** The index after the devfreq core has applied the limits lo and hi. */
  function NextIndex(s: Setup, lo: nat, hi: nat, i: nat, event: Event): (k: nat)
    requires lo <= hi < |s.table| && i < |s.table|
    ensures lo <= k <= hi
  {
    Max(lo, Min(hi, TargetIndex(s, i, event)))
  }

  /** A sequence of events, each firing where the previous ones have led. */
  predicate Runs(s: Setup, lo: nat, hi: nat, i: nat, load: nat, events: seq<Event>)
    requires lo <= hi < |s.table| && i < |s.table|
    decreases |events|
  {
    events == []
    || (Fires(s, i, load, events[0]) && Runs(s, lo, hi, NextIndex(s, lo, hi, i, events[0]), load, events[1..]))
  }

  /** Margins as the driver ships them: consecutive marks are outside the average ones. */
  ghost predicate Margins(s: Setup, hi: nat)
    requires hi < |s.table|
  {
    s.downMargin <= s.loadTarget && Fits32(s, hi)
  }

  /** A firing event also crosses the average mark of its side. */
  lemma CrossesAverage(s: Setup, lo: nat, hi: nat, i: nat, load: nat, event: Event)
    requires Valid(s, lo, hi) && Margins(s, hi) && lo <= i <= hi && Fires(s, i, load, event)
    ensures Fires(s, i, load, if Down(event) then AvgBelow else AvgAbove)
    ensures if Down(event) then lo < i else i < hi
  {
    var cur := s.table[i];
    EntryFits(s, hi, cur);
    UpperOrder(cur / 1000, s.loadTarget, s.upMargin);
    if i > lo {
      var prev := s.table[i - 1];
      EntryFits(s, hi, prev);
      MulMonotone(s.downMargin, s.loadTarget, prev / 1000);
      LowerOrder(prev / 1000, s.loadTarget, s.downMargin);
    }
  }

  /** Upward events are impossible here. */
  predicate NoUp(s: Setup, i: nat, load: nat)
    requires i < |s.table|
  {
    !Fires(s, i, load, AvgAbove)
  }

  predicate NoDown(s: Setup, i: nat, load: nat)
    requires i < |s.table|
  {
    !Fires(s, i, load, AvgBelow)
  }

  /** With single down steps, once a load has caused a step down it causes only steps
      down, one entry each. */
  lemma {:induction false} OnlyDownAfterDown(s: Setup, lo: nat, hi: nat, i: nat, load: nat, events: seq<Event>)
    requires Valid(s, lo, hi) && Margins(s, hi) && lo <= i <= hi && s.downSteps == 1
    requires NoUp(s, i, load) && Runs(s, lo, hi, i, load, events)
    ensures (forall k :: 0 <= k < |events| ==> Down(events[k])) && |events| <= i - lo
    decreases |events|
  {
    if events != [] {
      CrossesAverage(s, lo, hi, i, load, events[0]);
      MarksMeet(s, lo, hi, i);
      OnlyDownAfterDown(s, lo, hi, i - 1, load, events[1..]);
    }
  }

  lemma {:induction false} OnlyUpAfterUp(s: Setup, lo: nat, hi: nat, i: nat, load: nat, events: seq<Event>)
    requires Valid(s, lo, hi) && Margins(s, hi) && lo <= i <= hi && s.upSteps == 1
    requires NoDown(s, i, load) && Runs(s, lo, hi, i, load, events)
    ensures (forall k :: 0 <= k < |events| ==> !Down(events[k])) && |events| <= hi - i
    decreases |events|
  {
    if events != [] {
      CrossesAverage(s, lo, hi, i, load, events[0]);
      MarksMeet(s, lo, hi, i + 1);
      OnlyUpAfterUp(s, lo, hi, i + 1, load, events[1..]);
    }
  }

  /** A single step rules out the way back. */
  lemma FirstStep(s: Setup, lo: nat, hi: nat, i: nat, load: nat, event: Event)
    requires Valid(s, lo, hi) && Margins(s, hi) && lo <= i <= hi && s.upSteps == 1 && s.downSteps == 1
    requires Fires(s, i, load, event)
    ensures if Down(event) then lo < i && NextIndex(s, lo, hi, i, event) == i - 1 && NoUp(s, i - 1, load)
            else i < hi && NextIndex(s, lo, hi, i, event) == i + 1 && NoDown(s, i + 1, load)
  {
    CrossesAverage(s, lo, hi, i, load, event);
    MarksMeet(s, lo, hi, if Down(event) then i else i + 1);
  }

  /** No ping-pong: with single steps both ways a constant load moves the index in one
      direction only and stops within the table. */
  lemma SingleStepsNeverReverse(s: Setup, lo: nat, hi: nat, i: nat, load: nat, events: seq<Event>)
    requires Valid(s, lo, hi) && Margins(s, hi) && lo <= i <= hi && s.upSteps == 1 && s.downSteps == 1
    requires Runs(s, lo, hi, i, load, events)
    ensures (forall k :: 0 <= k < |events| ==> Down(events[k])) || (forall k :: 0 <= k < |events| ==> !Down(events[k]))
    ensures |events| <= hi - lo
  {
    if events != [] {
      FirstStep(s, lo, hi, i, load, events[0]);
      if Down(events[0]) {
        OnlyDownAfterDown(s, lo, hi, i - 1, load, events[1..]);
      } else {
        OnlyUpAfterUp(s, lo, hi, i + 1, load, events[1..]);
      }
    }
  }

  /** As shipped (single steps down, several up): the index may overshoot once, but it
      never turns back up, and it stops within twice the table. */
  lemma {:induction false} AtMostOneReversal(s: Setup, lo: nat, hi: nat, i: nat, load: nat, events: seq<Event>)
    requires Valid(s, lo, hi) && Margins(s, hi) && lo <= i <= hi && s.upSteps >= 1 && s.downSteps == 1
    requires Runs(s, lo, hi, i, load, events)
    ensures forall a, b :: 0 <= a < b < |events| && Down(events[a]) ==> Down(events[b])
    ensures |events| <= (hi - i) + (hi - lo)
    decreases |events|
  {
    if events != [] {
      var rest := events[1..];
      CrossesAverage(s, lo, hi, i, load, events[0]);
      if Down(events[0]) {
        MarksMeet(s, lo, hi, i);
        OnlyDownAfterDown(s, lo, hi, i - 1, load, rest);
      } else {
        AtMostOneReversal(s, lo, hi, NextIndex(s, lo, hi, i, events[0]), load, rest);
      }
      assert forall k :: 0 < k < |events| ==> events[k] == rest[k - 1];
    }
  }

  /** Where a run has to stop, the load lies between the enabled average marks. */
  lemma StopsBetweenMarks(s: Setup, lo: nat, hi: nat, i: nat, load: nat)
    requires Valid(s, lo, hi) && Margins(s, hi) && lo <= i <= hi
    ensures (forall event :: !Fires(s, i, load, event)) <==>
            (i < hi ==> load <= MarksAt(s, i).avgUpper) && (i > lo ==> load >= MarksAt(s, i).avgLower)
  {
    if e :| Fires(s, i, load, e) {
      CrossesAverage(s, lo, hi, i, load, e);
    }
    if i < hi {
      MarksMeet(s, lo, hi, i + 1);
    }
    if i > lo {
      MarksMeet(s, lo, hi, i);
    }
    var above, below := Fires(s, i, load, AvgAbove), Fires(s, i, load, AvgBelow);
  }

  // ----- exactly which tunables rule out a reversal -----------------------------------------

  predicate OneWay(events: seq<Event>) {
    (forall k :: 0 <= k < |events| ==> Down(events[k])) || (forall k :: 0 <= k < |events| ==> !Down(events[k]))
  }

  /** A consecutive step from entry j does not land where a load that caused it could
      call for the way back. */
  predicate StepFits(s: Setup, lo: nat, hi: nat, j: nat)
    requires lo <= hi < |s.table| && j < |s.table|
  {
    var m := MarksAt(s, j);
    var above, below := MarksAt(s, NextIndex(s, lo, hi, j, ConsecAbove)), MarksAt(s, NextIndex(s, lo, hi, j, ConsecBelow));
    && (m.upperEnabled && above.lowerEnabled ==> above.avgLower <= m.consecUpper + 1)
    && (m.lowerEnabled && below.upperEnabled ==> m.consecLower <= below.avgUpper + 1)
  }

  ghost predicate StepsFit(s: Setup, lo: nat, hi: nat)
    requires lo <= hi < |s.table|
  {
    forall j :: lo <= j <= hi ==> StepFits(s, lo, hi, j)
  }

  lemma NoWayBackConsec(s: Setup, lo: nat, hi: nat, i: nat, load: nat, event: Event)
    requires lo <= hi < |s.table| && i < |s.table| && StepFits(s, lo, hi, i)
    requires event in {ConsecAbove, ConsecBelow} && Fires(s, i, load, event)
    ensures var k := NextIndex(s, lo, hi, i, event);
            if Down(event) then NoUp(s, k, load) else NoDown(s, k, load)
  {
  }

  lemma NoWayBackAverage(s: Setup, lo: nat, hi: nat, i: nat, load: nat, event: Event)
    requires Valid(s, lo, hi) && lo <= i <= hi && event in {AvgAbove, AvgBelow} && Fires(s, i, load, event)
    ensures var k := NextIndex(s, lo, hi, i, event);
            if Down(event) then NoUp(s, k, load) else NoDown(s, k, load)
  {
    LimitsStop(s, lo, hi, i);
    if event == AvgAbove {
      MarksMeet(s, lo, hi, i + 1);
    } else {
      MarksMeet(s, lo, hi, i);
    }
  }

  /** At a limit the marks beyond it are off. */
  lemma LimitsStop(s: Setup, lo: nat, hi: nat, i: nat)
    requires Valid(s, lo, hi) && lo <= i <= hi
    ensures MarksAt(s, i).upperEnabled <==> i < hi
    ensures MarksAt(s, i).lowerEnabled <==> i > lo
  {
  }

  lemma NoWayBack(s: Setup, lo: nat, hi: nat, i: nat, load: nat, event: Event)
    requires Valid(s, lo, hi) && Margins(s, hi) && lo <= i <= hi && StepFits(s, lo, hi, i) && Fires(s, i, load, event)
    ensures var k := NextIndex(s, lo, hi, i, event);
            if Down(event) then NoUp(s, k, load) else NoDown(s, k, load)
  {
    if event in {ConsecAbove, ConsecBelow} {
      NoWayBackConsec(s, lo, hi, i, load, event);
    } else {
      NoWayBackAverage(s, lo, hi, i, load, event);
    }
  }

  /** Where one direction is ruled out, it stays ruled out. */
  lemma {:induction false} WayKept(s: Setup, lo: nat, hi: nat, i: nat, load: nat, events: seq<Event>, down: bool)
    requires Valid(s, lo, hi) && Margins(s, hi) && lo <= i <= hi && StepsFit(s, lo, hi)
    requires Runs(s, lo, hi, i, load, events) && if down then NoUp(s, i, load) else NoDown(s, i, load)
    ensures forall k :: 0 <= k < |events| ==> Down(events[k]) == down
    decreases |events|
  {
    if events != [] {
      CrossesAverage(s, lo, hi, i, load, events[0]);
      assert StepFits(s, lo, hi, i);
      NoWayBack(s, lo, hi, i, load, events[0]);
      WayKept(s, lo, hi, NextIndex(s, lo, hi, i, events[0]), load, events[1..], down);
    }
  }

  lemma OneWayIfStepsFit(s: Setup, lo: nat, hi: nat, i: nat, load: nat, events: seq<Event>)
    requires Valid(s, lo, hi) && Margins(s, hi) && lo <= i <= hi && StepsFit(s, lo, hi)
    requires Runs(s, lo, hi, i, load, events)
    ensures OneWay(events)
  {
    if events != [] {
      assert StepFits(s, lo, hi, i);
      NoWayBack(s, lo, hi, i, load, events[0]);
      WayKept(s, lo, hi, NextIndex(s, lo, hi, i, events[0]), load, events[1..], Down(events[0]));
    }
  }

  /** A step that does not fit is a reversal under some constant load. */
  lemma Reverses(s: Setup, lo: nat, hi: nat, j: nat) returns (load: nat, events: seq<Event>)
    requires Valid(s, lo, hi) && lo <= j <= hi && !StepFits(s, lo, hi, j)
    ensures Runs(s, lo, hi, j, load, events) && !OneWay(events)
  {
    var m := MarksAt(s, j);
    var above := NextIndex(s, lo, hi, j, ConsecAbove);
    var below := NextIndex(s, lo, hi, j, ConsecBelow);
    if m.upperEnabled && MarksAt(s, above).lowerEnabled && MarksAt(s, above).avgLower > m.consecUpper + 1 {
      load, events := m.consecUpper + 1, [ConsecAbove, AvgBelow];
      assert Fires(s, j, load, ConsecAbove) && Fires(s, above, load, AvgBelow);
      assert events[1..] == [AvgBelow] && Runs(s, lo, hi, above, load, [AvgBelow]);
    } else {
      load, events := m.consecLower - 1, [ConsecBelow, AvgAbove];
      assert Fires(s, j, load, ConsecBelow) && Fires(s, below, load, AvgAbove);
      assert events[1..] == [AvgAbove] && Runs(s, lo, hi, below, load, [AvgAbove]);
    }
    assert Down(events[0]) != Down(events[1]);
  }

  /** No constant load ever causes a reversal, wherever it starts. */
  ghost predicate NeverReverses(s: Setup, lo: nat, hi: nat)
    requires lo <= hi < |s.table|
  {
    forall i: nat, load: nat, events :: lo <= i <= hi && Runs(s, lo, hi, i, load, events) ==> OneWay(events)
  }

  lemma FittingNeverReverses(s: Setup, lo: nat, hi: nat)
    requires Valid(s, lo, hi) && Margins(s, hi) && StepsFit(s, lo, hi)
    ensures NeverReverses(s, lo, hi)
  {
    forall i: nat, load: nat, events | lo <= i <= hi && Runs(s, lo, hi, i, load, events) ensures OneWay(events) {
      OneWayIfStepsFit(s, lo, hi, i, load, events);
    }
  }

  /** The governor never reverses under a constant load if and only if every
      consecutive step fits: the exact condition on table, tunables and limits. */
  lemma NeverReversesIff(s: Setup, lo: nat, hi: nat)
    requires Valid(s, lo, hi) && Margins(s, hi)
    ensures NeverReverses(s, lo, hi) <==> StepsFit(s, lo, hi)
  {
    if StepsFit(s, lo, hi) {
      FittingNeverReverses(s, lo, hi);
    } else {
      var j: nat :| lo <= j <= hi && !StepFits(s, lo, hi, j);
      var load, events := Reverses(s, lo, hi, j);
    }
  }

  /** Five frequencies 1 MHz apart with the shipped tunables. */
  const SHIPPED := Setup([1_000_000, 2_000_000, 3_000_000, 4_000_000, 5_000_000], 800, 100, 100, 4, 1, 1_000_000, 5_000_000)

  /** The shipped tunables do not fit every table: there the step of four overshoots. */
  lemma ShippedStepOvershoots()
    ensures Valid(SHIPPED, 0, 4) && Margins(SHIPPED, 4) && !StepsFit(SHIPPED, 0, 4)
  {
    assert NextIndex(SHIPPED, 0, 4, 0, ConsecAbove) == 4;
    assert !StepFits(SHIPPED, 0, 4, 0);
  }

  function Alternating(n: nat): seq<Event> {
    if n == 0 then [] else [ConsecAbove, ConsecBelow] + Alternating(n - 1)
  }

  /** With steps of two both ways a constant load can ping-pong for ever. */
  lemma {:induction false} DoubleStepsPingPong(n: nat)
    ensures Runs(Setup([1000, 2000, 3000], 800, 0, 0, 2, 2, 1000, 3000), 0, 2, 0, 1200, Alternating(n))
  {
    if n > 0 {
      DoubleStepsPingPong(n - 1);
      var s := Setup([1000, 2000, 3000], 800, 0, 0, 2, 2, 1000, 3000);
      var events := Alternating(n);
      assert events[1..] == [ConsecBelow] + Alternating(n - 1);
      assert events[1..][1..] == Alternating(n - 1);
      assert Fires(s, 0, 1200, ConsecAbove) && NextIndex(s, 0, 2, 0, ConsecAbove) == 2;
      assert Fires(s, 2, 1200, ConsecBelow) && NextIndex(s, 0, 2, 2, ConsecBelow) == 0;
      assert Runs(s, 0, 2, 2, 1200, events[1..]);
    }
  }
}
