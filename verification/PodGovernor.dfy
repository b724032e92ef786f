/** The pod-scaling governor's load history: a ring buffer and its running maximum. */
module PodGovernor {
  import opened Bytes

  const TWO31: nat := 0x8000_0000
  const TWO63: nat := 0x8000_0000_0000_0000
  const TWO64: nat := 0x1_0000_0000_0000_0000
  const MHZ: nat := 1_000_000
  const DEVFREQ_MIN_FREQ: nat := 0
  const DEVFREQ_MAX_FREQ: nat := TWO64 - 1

  // ----- load history ------------------------------------------------------------

  function MaxOf(s: seq<nat>): nat {
    if s == [] then 0 else Max(MaxOf(s[..|s| - 1]), s[|s| - 1])
  }

  lemma MaxOfPush(s: seq<nat>, x: nat)
    ensures MaxOf(s + [x]) == Max(MaxOf(s), x)
  {
  }

  lemma MaxOfNext(w: seq<nat>, k: nat)
    requires 1 <= k < |w|
    ensures MaxOf(w[1..k + 1]) == Max(MaxOf(w[1..k]), w[k])
  {
    assert w[1..k] + [w[k]] == w[1..k + 1];
    MaxOfPush(w[1..k], w[k]);
  }

  /** MaxOf is the maximum: an upper bound that is reached. */
  lemma {:induction false} MaxOfIsMax(s: seq<nat>)
    ensures forall i :: 0 <= i < |s| ==> s[i] <= MaxOf(s)
    ensures s != [] ==> MaxOf(s) in s
  {
    if s != [] {
      var init := s[..|s| - 1];
      MaxOfIsMax(init);
      assert forall i :: 0 <= i < |init| ==> s[i] == init[i];
    }
  }

  /** The last n elements, or all of them. */
  function LastN(s: seq<nat>, n: nat): (r: seq<nat>)
    ensures |r| == Min(|s|, n)
  {
    if |s| <= n then s else s[|s| - n..]
  }

  /** The next index around a ring. */
  function Succ(i: nat, size: nat): nat {
    if i + 1 == size then 0 else i + 1
  }

  method NextIndex(i: nat, size: nat) returns (j: nat)
    requires i < size
    ensures j == Succ(i, size) < size
  {
    if i + 1 == size {
      DivModUnique(size, size, 1, 0);
    } else {
      DivModUnique(i + 1, size, 0, i + 1);
    }
    j := (i + 1) % size;
  }

  lemma {:induction false} RemSucc(i: nat, size: nat)
    requires size > 0
    ensures Rem(i + 1, size) == Succ(Rem(i, size), size)
    decreases i
  {
    if i >= size {
      RemSucc(i - size, size);
    }
  }

  /** The recorded loads in the ring, oldest first. */
  function WindowOf(b: seq<nat>, next: nat, count: nat, size: nat): seq<nat>
    requires count <= size <= |b| && next <= size
  {
    if count < size then b[..count] else b[next..size] + b[..next]
  }

  /** Writing at `next` drops the oldest load of a full ring and adds the new one. */
  lemma WindowWrite(b: seq<nat>, next: nat, count: nat, size: nat, x: nat)
    requires next < size && count <= size <= |b| && (count < size ==> next == count)
    ensures var w := WindowOf(b, next, count, size);
            WindowOf(b[next := x], Succ(next, size), Min(count + 1, size), size)
            == (if count == size then w[1..] else w) + [x]
  {
    var w := WindowOf(b, next, count, size);
    var b' := b[next := x];
    var kept := if count == size then w[1..] else w;
    if count == size {
      assert w[1..] == b[next + 1..size] + b[..next];
      assert b'[next + 1..size] == b[next + 1..size] && b'[..next + 1] == b[..next] + [x];
    } else {
      assert b'[..count + 1] == b[..count] + [x];
    }
  }

  lemma Moved(w: seq<nat>, size: nat, x: nat)
    requires |w| <= size && size > 0
    ensures LastN(w + [x], size) == (if |w| == size then w[1..] else w) + [x]
  {
  }

  class History {
    /** p_history_buf_size */
    const size: nat
    /** cycles_history_buf */
    const buf: array<nat>
    var next: nat
    var count: nat
    var recentHigh: nat

    ghost predicate Valid()
      reads this, buf
    {
      && size <= buf.Length && count <= size
      && (size == 0 ==> next == 0) && (size > 0 ==> next < size)
      && (count < size ==> next == count)
      && recentHigh == MaxOf(Window())
    }

    /** The recorded loads, oldest first. */
    ghost function Window(): seq<nat>
      requires size <= buf.Length && count <= size && next <= size
      reads this, buf
    {
      WindowOf(buf[..], next, count, size)
    }

    constructor (size: nat, maxSize: nat)
      requires size <= maxSize
      ensures Valid() && fresh(buf) && this.size == size && Window() == [] && next == 0
    {
      this.size := size;
      buf := new nat[maxSize](i => 0);
      next, count, recentHigh := 0, 0, 0;
    }

    /** The history is cleared while the device is suspended. */
    method Clear()
      requires Valid()
      modifies this, buf
      ensures Valid() && Window() == [] && next == 0 && recentHigh == 0
    {
      for i := 0 to buf.Length
      {
        buf[i] := 0;
      }
      count := 0;
      next := 0;
      recentHigh := 0;
    }

    /** The highest load that stays when the oldest is about to be overwritten. */
    method RescanHigh() returns (high: nat)
      requires Valid() && size > 0 && count == size
      ensures high == MaxOf(Window()[1..])
    {
      ghost var w := Window();
      ghost var k := 1;
      high := 0;
      var i := NextIndex(next, size);
      while i != next
        invariant 1 <= k <= size && i == (if next + k < size then next + k else next + k - size)
        invariant high == MaxOf(w[1..k])
        decreases size - k
      {
        assert w[k] == buf[i];
        MaxOfNext(w, k);
        if buf[i] > high {
          high := buf[i];
        }
        i := NextIndex(i, size);
        k := k + 1;
      }
      assert w[1..k] == w[1..];
    }

    /** One normalised load: the window moves on and recentHigh is its maximum. */
    method Record(load: nat)
      requires Valid()
      modifies this`next, this`count, this`recentHigh, buf
      ensures Valid()
      ensures size > 0 ==> Window() == LastN(old(Window()) + [load], size)
      ensures size > 0 ==> count == Min(old(count) + 1, size) && next == Succ(old(next), size)
      ensures size == 0 ==> Window() == []
    {
      if size == 0 {
        return;
      }
      ghost var b, w := buf[..], Window();
      if count == size {
        recentHigh := RescanHigh();
      }
      ghost var kept := if count == size then w[1..] else w;
      WindowWrite(b, next, count, size, load);
      MaxOfPush(kept, load);
      Moved(w, size, load);
      buf[next] := load;
      assert buf[..] == b[next := load];
      next := NextIndex(next, size);
      if count < size {
        count := count + 1;
      }
      if load > recentHigh {
        recentHigh := load;
      }
    }
  }

  /** The history after the loads in `done` since the last clear. */
  ghost predicate Tracks(h: History, done: seq<nat>)
    requires h.Valid()
    reads h, h.buf
  {
    && h.size > 0 && h.Window() == LastN(done, h.size)
    && h.next == Rem(|done|, h.size) && h.count == Min(|done|, h.size)
  }

  method RecordNext(h: History, ghost done: seq<nat>, load: nat)
    requires h.Valid() && Tracks(h, done)
    modifies h`next, h`count, h`recentHigh, h.buf
    ensures h.Valid() && Tracks(h, done + [load])
  {
    NextWindow(done, load, h.size);
    RemSucc(|done|, h.size);
    h.Record(load);
  }

  /** One load after the other. */
  method RecordAll(h: History, loads: seq<nat>)
    requires h.Valid() && Tracks(h, [])
    modifies h`next, h`count, h`recentHigh, h.buf
    ensures h.Valid() && Tracks(h, loads)
    decreases |loads|
  {
    if loads != [] {
      var n := |loads| - 1;
      RecordAll(h, loads[..n]);
      assert loads[..n] + [loads[n]] == loads;
      RecordNext(h, loads[..n], loads[n]);
    }
  }

  /** After any loads since the last clear, recent_high is the maximum of the last
      `size` of them, and the ring indices say which they are. */
  method RecordRun(size: nat, maxSize: nat, loads: seq<nat>) returns (recentHigh: nat, count: nat, next: nat)
    requires 0 < size <= maxSize
    ensures recentHigh == MaxOf(LastN(loads, size))
    ensures count == Min(|loads|, size) && next == |loads| % size
  {
    var h := new History(size, maxSize);
    RecordAll(h, loads);
    RemainderIs(|loads|, size);
    return h.recentHigh, h.count, h.next;
  }

  lemma RemainderIs(n: nat, size: nat)
    requires size > 0
    ensures Rem(n, size) == n % size
  {
    RemIsMod(n, size);
  }

  lemma NextWindow(done: seq<nat>, load: nat, size: nat)
    ensures LastN(LastN(done, size) + [load], size) == LastN(done + [load], size)
  {
  }
}
