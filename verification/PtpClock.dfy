/** Reading the PTP hardware clock, whose seconds and nanoseconds are two registers
    that keep counting while they are read. */
module PtpClock {

  const SECOND: nat := 1_000_000_000

  /** The clock as its value in nanoseconds at each of the register reads, in order. */
  datatype Reads = Reads(ns1: nat, sec1: nat, ns2: nat, sec2: nat) {
    predicate Monotone() {
      ns1 <= sec1 <= ns2 <= sec2
    }
    /** Time from the first to the last read. */
    function Duration(): int {
      sec2 - ns1
    }
  }

  /** `get_systime`; the second read of the seconds happens only after a rollover. */
  method GetSystime(clock: Reads) returns (ns: nat)
    ensures ns == Combined(clock)
    ensures clock.Monotone() && clock.Duration() <= SECOND ==> ns == clock.ns1 || ns == clock.ns2
  {
    var stnsr1 := clock.ns1 % SECOND;
    var stsr := clock.sec1 / SECOND;
    var stnsr2 := clock.ns2 % SECOND;
    if stnsr1 > stnsr2 {
      stsr := clock.sec2 / SECOND;
      ns := stnsr2 + stsr * SECOND;
    } else {
      ns := stnsr1 + stsr * SECOND;
    }
    if clock.Monotone() && clock.Duration() <= SECOND {
      NeverTorn(clock);
    }
  }

  function Combined(clock: Reads): nat {
    if clock.ns1 % SECOND > clock.ns2 % SECOND then clock.ns2 % SECOND + clock.sec2 / SECOND * SECOND
    else clock.ns1 % SECOND + clock.sec1 / SECOND * SECOND
  }

  /** The value is the clock's at the first or the second nanosecond read, whatever
      seconds rollover falls between, as long as the call takes at most a second. */
  lemma NeverTorn(clock: Reads)
    requires clock.Monotone() && clock.Duration() <= SECOND
    ensures Combined(clock) == clock.ns1 || Combined(clock) == clock.ns2
    ensures Combined(clock) == clock.ns1 || clock.ns1 / SECOND < clock.ns2 / SECOND
  {
  }

  /** The bound is sharp: one nanosecond more and the value can be one the clock never
      had at either read. */
  lemma TornBeyondASecond()
    ensures var clock := Reads(5, SECOND, SECOND + 6, SECOND + 6);
            clock.Monotone() && clock.Duration() == SECOND + 1
            && Combined(clock) != clock.ns1 && Combined(clock) != clock.ns2
  {
  }

  /** However long the call takes, the value is torn exactly in these two cases: no
      rollover seen but the seconds moved on, or a rollover seen and the seconds moved
      on once more after the second nanosecond read. */
  lemma TornIff(clock: Reads)
    requires clock.Monotone()
    ensures (Combined(clock) != clock.ns1 && Combined(clock) != clock.ns2) <==>
            if clock.ns1 % SECOND > clock.ns2 % SECOND then clock.sec2 / SECOND != clock.ns2 / SECOND
            else clock.sec1 / SECOND != clock.ns1 / SECOND
                 && (clock.ns1 % SECOND != clock.ns2 % SECOND || clock.sec1 / SECOND != clock.ns2 / SECOND)
  {
  }
}
