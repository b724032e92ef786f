/** The SHA request path of the virtual security engine: what `sha_op` and its
    fast and slow path do to the request context, what the engine makes of the
    tasks it is sent, and why the result is the one-shot hash of the message. */
module ShaStream {
  import opened Bytes

  /** Size of the linear DMA buffer that holds the residual bytes (SZ_4M). */
  const BUFFER_LEN: nat := 0x40_0000
  /** Longest request the driver's client hands over (16 MiB - 1). */
  const REQUEST_MAX: nat := 16 * 1024 * 1024 - 1

  // ----- tasks and request context -----------------------------------------

  /** One message to the engine: the bytes its source address describes and the
      two length words that carry the first/last signalling. */
  datatype Task = Task(data: seq<byte>, msgTotal: nat, msgLeft: nat)

  datatype Log = Log(tasks: seq<Task>, isFirst: bool)

  /** What is copied to the client's result buffer. Undefined: the length of a copy
      wrapped below zero, and the model says nothing about anything after it. */
  datatype Outcome = Pending | EngineDigest | ZeroLengthVector | Undefined

  /** The request context; `pending` are the first `residual_bytes` of the buffer. */
  datatype State = State(log: Log, pending: seq<byte>, totalCount: nat, forceAlign: bool, outcome: Outcome)

  const INIT: State := State(Log([], true), [], 0, false, Pending)

  /** A hash request: the entries and bytes of its scatterlist and how many of the
      bytes count. */
  datatype Request = Request(nents: nat, bytes: seq<byte>, nbytes: nat) {
    predicate WellFormed() {
      nbytes <= |bytes| && nbytes <= REQUEST_MAX
    }
    function Data(): (d: seq<byte>)
      requires nbytes <= |bytes|
      ensures |d| == nbytes
    {
      bytes[..nbytes]
    }
  }

  predicate ValidBlockSize(blk: nat) {
    0 < 2 * blk < BUFFER_LEN
  }

  function SendTask(log: Log, data: seq<byte>, totalCount: nat, isLast: bool): Log {
    if isLast then
      log.(tasks := log.tasks + [Task(data, totalCount, |data|)])
    else
      var left := (|data| + 8) % TWO32;
      Log(log.tasks + [Task(data, if log.isFirst then left else left + 8, left)], false)
  }

  /** `sha_send_one`: SHAKE gets its domain byte on the last task. */
  function SendOne(shake: bool, st: State, data: seq<byte>, isLast: bool): State {
    if isLast && shake then
      st.(log := SendTask(st.log, data + [0xff], st.totalCount + 1, true), totalCount := st.totalCount + 1)
    else
      st.(log := SendTask(st.log, data, st.totalCount, isLast))
  }

  /** Length of the next chunk the slow path sends. */
  function ChunkLen(blk: nat, total: nat): (n: nat)
    requires ValidBlockSize(blk) && total >= blk
    ensures blk <= n <= total && n <= BUFFER_LEN
  {
    WholeFacts(total, blk);
    Min(BUFFER_LEN, Whole(total, blk))
  }

  /** The slow path's loop: send chunks of `buf` while `total` covers a block. */
  function SendBlocks(blk: nat, log: Log, buf: seq<byte>, total: nat): (r: (Log, seq<byte>))
    requires ValidBlockSize(blk) && total <= |buf|
    decreases total
  {
    if total < blk then (log, buf)
    else
      var n := ChunkLen(blk, total);
      SendBlocks(blk, SendTask(log, buf[..n], 0, false), buf[n..], total - n)
  }

  /** How many of t buffered bytes the slow path may send: one whole block less
      when nothing would be left over. */
  function SlowTotal(blk: nat, t: nat): (total: nat)
    requires blk > 0
    ensures total <= t
  {
    WholeFacts(t, blk);
    if t > 0 && Rem(t, blk) == 0 then t - blk else t
  }

  /** Whether the slow path's first chunk is shorter than the bytes already in the
      buffer, so that the unsigned length of its copy wraps. */
  predicate CopyWraps(blk: nat, offset: nat, total: nat)
    requires ValidBlockSize(blk)
  {
    total >= blk && ChunkLen(blk, total) < offset
  }

  function SlowAbsorb(blk: nat, st: State, data: seq<byte>): State
    requires ValidBlockSize(blk) && data != []
  {
    var buf := st.pending + data;
    var total := SlowTotal(blk, |buf|);
    if CopyWraps(blk, |st.pending|, total) then st.(outcome := Undefined)
    else
      var (log, rest) := SendBlocks(blk, st.log, buf, total);
      State(log, rest, st.totalCount + |data|, st.forceAlign && |rest| != blk, st.outcome)
  }

  /** The fast path first sends a residual that is a whole block. */
  function Flush(blk: nat, st: State): Log {
    if |st.pending| == blk then SendTask(st.log, st.pending, 0, false) else st.log
  }

  function FastAbsorb(blk: nat, st: State, data: seq<byte>): State
    requires ValidBlockSize(blk) && blk <= |data|
  {
    var log := Flush(blk, st);
    var keep := if Rem(|data|, blk) == 0 then blk else Rem(|data|, blk);
    var bytes := |data| - keep;
    State(if bytes > 0 then SendTask(log, data[..bytes], 0, false) else log,
          data[bytes..], st.totalCount + |data|, keep < blk || st.forceAlign, st.outcome)
  }

  function Finish(shake: bool, st: State): State {
    if st.outcome == Undefined then st
    else
      var sent := if st.pending != [] then SendOne(shake, st, st.pending, true).(pending := []) else st;
      sent.(outcome := EngineDigest)
  }

  /** `force_align` as it is when the path is chosen. */
  function Aligning(st: State, req: Request): bool {
    st.forceAlign || req.nents > 1
  }

  predicate TakesFastPath(blk: nat, st: State, req: Request)
    requires blk > 0
  {
    !Aligning(st, req) && req.nbytes >= blk
  }

  function Absorb(blk: nat, st: State, req: Request): State
    requires ValidBlockSize(blk) && req.WellFormed() && req.nbytes > 0
  {
    var st := st.(forceAlign := Aligning(st, req));
    if !st.forceAlign && req.nbytes >= blk then
      FastAbsorb(blk, st, req.Data())
    else
      SlowAbsorb(blk, st, req.Data())
  }

  /** `sha_op`; update is (false, false), finup and digest (true, true), final (true, false). */
  function ShaOp(blk: nat, shake: bool, st: State, req: Request, isLast: bool, processCurReq: bool): State
    requires ValidBlockSize(blk) && req.WellFormed()
  {
    if st.outcome == Undefined then st
    else if req.nbytes == 0 then
      if st.totalCount > 0 then
        if isLast then Finish(shake, st) else st
      else if shake then
        var sent := SendOne(shake, st, [], isLast);
        if isLast then sent.(outcome := EngineDigest) else sent
      else if isLast then st.(outcome := ZeroLengthVector)
      else st
    else
      var absorbed := if isLast == processCurReq then Absorb(blk, st, req)
                      else st.(forceAlign := Aligning(st, req));
      if isLast then Finish(shake, absorbed) else absorbed
  }

  function Update(blk: nat, shake: bool, st: State, req: Request): State
    requires ValidBlockSize(blk) && req.WellFormed()
  {
    ShaOp(blk, shake, st, req, false, false)
  }

  function Finup(blk: nat, shake: bool, st: State, req: Request): State
    requires ValidBlockSize(blk) && req.WellFormed()
  {
    ShaOp(blk, shake, st, req, true, true)
  }

  function Final(blk: nat, shake: bool, st: State, req: Request): State
    requires ValidBlockSize(blk) && req.WellFormed()
  {
    ShaOp(blk, shake, st, req, true, false)
  }

  // ----- the engine and the one-shot hash ----------------------------------

  /** An iterated hash (section 6.2.2 of FIPS 180-4 for SHA-256): compression and
      padding are left uninterpreted. */
  datatype HashAlg<!H> = HashAlg(init: H, compress: (H, seq<byte>) -> H, pad: nat -> seq<byte>)

  function FoldBlocks<H>(alg: HashAlg<H>, blk: nat, h: H, s: seq<byte>): H
    requires blk > 0
    decreases |s|
  {
    if |s| < blk then h else FoldBlocks(alg, blk, alg.compress(h, s[..blk]), s[blk..])
  }

  /** The hash of a whole message, with no notion of requests or chunks. */
  function OneShot<H>(alg: HashAlg<H>, blk: nat, shake: bool, m: seq<byte>): H
    requires blk > 0
  {
    var m' := if shake then m + [0xff] else m;
    FoldBlocks(alg, blk, alg.init, m' + alg.pad(|m'|))
  }

  /** The engine restarts when the two lengths agree and pads when `msgLeft` is
      the number of bytes it was really given. */
  function EngineStep<H>(alg: HashAlg<H>, blk: nat, h: H, t: Task): H
    requires blk > 0
  {
    var start := if t.msgTotal == t.msgLeft then alg.init else h;
    FoldBlocks(alg, blk, start, if t.msgLeft == |t.data| then t.data + alg.pad(t.msgTotal) else t.data)
  }

  function RunEngine<H>(alg: HashAlg<H>, blk: nat, h: H, tasks: seq<Task>): H
    requires blk > 0
  {
    if tasks == [] then h
    else EngineStep(alg, blk, RunEngine(alg, blk, h, tasks[..|tasks| - 1]), tasks[|tasks| - 1])
  }

  function Sent(tasks: seq<Task>): seq<byte> {
    if tasks == [] then [] else Sent(tasks[..|tasks| - 1]) + tasks[|tasks| - 1].data
  }

  lemma SentAppend(tasks: seq<Task>, t: Task)
    ensures Sent(tasks + [t]) == Sent(tasks) + t.data
  {
  }

  lemma {:induction false} FoldSplit<H>(alg: HashAlg<H>, blk: nat, h: H, a: seq<byte>, b: seq<byte>)
    requires blk > 0 && Rem(|a|, blk) == 0
    ensures FoldBlocks(alg, blk, h, a + b) == FoldBlocks(alg, blk, FoldBlocks(alg, blk, h, a), b)
    decreases |a|
  {
    if a == [] {
      assert a + b == b;
    } else {
      assert (a + b)[..blk] == a[..blk] && (a + b)[blk..] == a[blk..] + b;
      FoldSplit(alg, blk, alg.compress(h, a[..blk]), a[blk..], b);
    }
  }

  // ----- the invariant of a hash in progress -------------------------------

  /** How many of the first n bytes are held back: a whole block when n is a
      nonzero multiple of the block size, so that the last task is never empty. */
  function Keep(blk: nat, n: nat): nat
    requires blk > 0
  {
    if n == 0 then 0 else if Rem(n, blk) == 0 then blk else Rem(n, blk)
  }

  predicate GoodTask(blk: nat, t: Task, first: bool)
    requires blk > 0
  {
    && Rem(|t.data|, blk) == 0
    && t.msgLeft == |t.data| + 8
    && t.msgTotal == (if first then t.msgLeft else t.msgLeft + 8)
  }

  predicate GoodLog(blk: nat, log: Log)
    requires blk > 0
  {
    && (log.isFirst <==> log.tasks == [])
    && forall i :: 0 <= i < |log.tasks| ==> GoodTask(blk, log.tasks[i], i == 0)
  }

  /** After the bytes `m`: nothing lost, only whole blocks sent, exact counts. */
  predicate Inv(blk: nat, st: State, m: seq<byte>)
    requires blk > 0
  {
    && st.outcome == Pending && GoodLog(blk, st.log)
    && Sent(st.log.tasks) + st.pending == m
    && |st.pending| == Keep(blk, |m|)
    && st.totalCount == |m|
  }

  /** No task is empty. */
  predicate Dense(log: Log) {
    forall i :: 0 <= i < |log.tasks| ==> log.tasks[i].data != []
  }

  lemma {:induction false} SentAligned(blk: nat, log: Log)
    requires blk > 0 && GoodLog(blk, log)
    ensures Rem(|Sent(log.tasks)|, blk) == 0
    decreases |log.tasks|
  {
    if log.tasks != [] {
      var n := |log.tasks| - 1;
      assert GoodTask(blk, log.tasks[n], n == 0);
      var shorter := Log(log.tasks[..n], n == 0);
      SentAligned(blk, shorter);
      RemAdd(|Sent(shorter.tasks)|, |log.tasks[n].data|, blk);
    }
  }

  /** What a well-marked log makes the engine compute: the fold over all bytes
      sent, whatever the engine held before. */
  lemma {:induction false} EngineFold<H>(alg: HashAlg<H>, blk: nat, h: H, log: Log)
    requires blk > 0 && GoodLog(blk, log) && log.tasks != []
    ensures RunEngine(alg, blk, h, log.tasks) == FoldBlocks(alg, blk, alg.init, Sent(log.tasks))
    decreases |log.tasks|
  {
    var n := |log.tasks| - 1;
    var t := log.tasks[n];
    assert GoodTask(blk, t, n == 0);
    var shorter := Log(log.tasks[..n], n == 0);
    if n == 0 {
      assert Sent(log.tasks) == [] + t.data == t.data;
    } else {
      EngineFold(alg, blk, h, shorter);
      SentAligned(blk, shorter);
      FoldSplit(alg, blk, alg.init, Sent(shorter.tasks), t.data);
    }
  }

  // ----- one request --------------------------------------------------------

  /** The chunks of a request stay block aligned: either the buffer is a whole
      number of blocks, or the aligned part of the request fits in it. */
  predicate Fits(blk: nat, total: nat)
    requires blk > 0
  {
    Rem(BUFFER_LEN, blk) == 0 || Whole(total, blk) <= BUFFER_LEN
  }

  /** What a caller can check before an update: a request that goes down the fast
      path finds no partial residual, one that goes down the slow path fits. */
  predicate Safe(blk: nat, st: State, req: Request)
    requires blk > 0
  {
    if TakesFastPath(blk, st, req) then |st.pending| == 0 || |st.pending| == blk
    else Fits(blk, SlowTotal(blk, |st.pending| + req.nbytes))
  }

  /** A non-last task claims eight bytes more than it has; eight more on top when
      it is not the first. No 32-bit wrap-around for requests of the allowed size. */
  lemma MarkExact(log: Log, data: seq<byte>)
    requires |data| <= REQUEST_MAX
    ensures SendTask(log, data, 0, false)
         == Log(log.tasks + [Task(data, |data| + (if log.isFirst then 8 else 16), |data| + 8)], false)
  {
  }

  lemma GoodSend(blk: nat, log: Log, data: seq<byte>)
    requires blk > 0 && GoodLog(blk, log) && Rem(|data|, blk) == 0 && |data| <= REQUEST_MAX
    ensures GoodLog(blk, SendTask(log, data, 0, false))
    ensures Sent(SendTask(log, data, 0, false).tasks) == Sent(log.tasks) + data
  {
    MarkExact(log, data);
    var log' := SendTask(log, data, 0, false);
    SentAppend(log.tasks, log'.tasks[|log.tasks|]);
    forall i | 0 <= i < |log'.tasks| ensures GoodTask(blk, log'.tasks[i], i == 0) {
      assert i < |log.tasks| ==> log'.tasks[i] == log.tasks[i] && GoodTask(blk, log.tasks[i], i == 0);
    }
  }

  lemma Rejoin(sent: seq<byte>, s: seq<byte>, n: nat, k: nat)
    requires n <= k <= |s|
    ensures sent + s[..n] + s[n..][..k - n] == sent + s[..k] && s[n..][k - n..] == s[k..]
    ensures k == |s| ==> sent + s[..n] + s[n..] == sent + s
  {
  }

  lemma ChunkAligned(blk: nat, total: nat)
    requires ValidBlockSize(blk) && total >= blk && Fits(blk, total)
    ensures Rem(ChunkLen(blk, total), blk) == 0
    ensures Whole(total - ChunkLen(blk, total), blk) == Whole(total, blk) - ChunkLen(blk, total)
    ensures Fits(blk, total - ChunkLen(blk, total))
  {
    WholeFacts(total, blk);
    WholeAfter(total, ChunkLen(blk, total), blk);
  }

  lemma {:induction false} SendBlocksGood(blk: nat, log: Log, buf: seq<byte>, total: nat)
    requires ValidBlockSize(blk) && total <= |buf| && GoodLog(blk, log) && Fits(blk, total)
    ensures var (log', rest) := SendBlocks(blk, log, buf, total);
            && GoodLog(blk, log')
            && rest == buf[Whole(total, blk)..]
            && Sent(log'.tasks) == Sent(log.tasks) + buf[..Whole(total, blk)]
    decreases total
  {
    var all := Whole(total, blk);
    WholeFacts(total, blk);
    if total < blk {
      assert buf[..0] == [] && buf[0..] == buf;
    } else {
      var n := ChunkLen(blk, total);
      ChunkAligned(blk, total);
      var next := SendTask(log, buf[..n], 0, false);
      GoodSend(blk, log, buf[..n]);
      SendBlocksGood(blk, next, buf[n..], total - n);
      Rejoin(Sent(log.tasks), buf, n, all);
    }
  }

  /** An unaligned chunk is sent exactly when the request does not fit. */
  lemma {:induction false} SendBlocksKeeps(blk: nat, log: Log, buf: seq<byte>, total: nat)
    requires ValidBlockSize(blk) && total <= |buf|
    ensures log.tasks <= SendBlocks(blk, log, buf, total).0.tasks
    decreases total
  {
    if total >= blk {
      var n := ChunkLen(blk, total);
      SendBlocksKeeps(blk, SendTask(log, buf[..n], 0, false), buf[n..], total - n);
    }
  }

  lemma SendBlocksBad(blk: nat, log: Log, buf: seq<byte>, total: nat)
    requires ValidBlockSize(blk) && total <= |buf| && !Fits(blk, total)
    ensures !GoodLog(blk, SendBlocks(blk, log, buf, total).0)
  {
    WholeFacts(total, blk);
    var n := ChunkLen(blk, total);
    var next := SendTask(log, buf[..n], 0, false);
    SendBlocksKeeps(blk, next, buf[n..], total - n);
    var k := |log.tasks|;
    assert SendBlocks(blk, log, buf, total).0.tasks[k] == next.tasks[k];
    assert !GoodTask(blk, next.tasks[k], k == 0);
  }

  /** Held-back bytes after n more, given that only whole blocks were sent. */
  lemma KeepAfter(blk: nat, sent: nat, pending: nat, n: nat)
    requires blk > 0 && Rem(sent, blk) == 0 && n > 0
    ensures Keep(blk, sent + pending + n) == Keep(blk, pending + n)
  {
  }

  lemma SlowKeeps(blk: nat, t: nat)
    requires blk > 0 && t > 0
    ensures t - Whole(SlowTotal(blk, t), blk) == Keep(blk, t)
  {
  }

  /** The invariant, from the parts a path has to establish. */
  lemma InvAfter(blk: nat, st: State, m: seq<byte>, data: seq<byte>, st': State)
    requires blk > 0 && Inv(blk, st, m) && data != []
    requires GoodLog(blk, st'.log) && st'.totalCount == st.totalCount + |data|
    requires Sent(st'.log.tasks) + st'.pending == Sent(st.log.tasks) + (st.pending + data)
    requires st'.outcome == Pending && |st'.pending| == Keep(blk, |st.pending| + |data|)
    ensures Inv(blk, st', m + data)
  {
    SentAligned(blk, st.log);
    KeepAfter(blk, |Sent(st.log.tasks)|, |st.pending|, |data|);
    assert Sent(st.log.tasks) + (st.pending + data) == m + data;
  }

  lemma SlowSent(blk: nat, st: State, data: seq<byte>)
    requires ValidBlockSize(blk) && GoodLog(blk, st.log) && data != []
    requires |st.pending| <= blk && Fits(blk, SlowTotal(blk, |st.pending| + |data|))
    ensures var st' := SlowAbsorb(blk, st, data);
            GoodLog(blk, st'.log) && Sent(st'.log.tasks) + st'.pending == Sent(st.log.tasks) + (st.pending + data)
    ensures |SlowAbsorb(blk, st, data).pending| == Keep(blk, |st.pending| + |data|)
  {
    var buf := st.pending + data;
    var total := SlowTotal(blk, |buf|);
    SendBlocksGood(blk, st.log, buf, total);
    SlowKeeps(blk, |buf|);
    Rejoin(Sent(st.log.tasks), buf, Whole(total, blk), |buf|);
  }

  lemma SlowAbsorbFits(blk: nat, st: State, m: seq<byte>, data: seq<byte>)
    requires ValidBlockSize(blk) && Inv(blk, st, m) && data != []
    requires Fits(blk, SlowTotal(blk, |st.pending| + |data|))
    ensures Inv(blk, SlowAbsorb(blk, st, data), m + data)
  {
    SlowSent(blk, st, data);
    InvAfter(blk, st, m, data, SlowAbsorb(blk, st, data));
  }

  /** The slow path keeps the invariant exactly when its request fits. */
  lemma SlowAbsorbGood(blk: nat, st: State, m: seq<byte>, data: seq<byte>)
    requires ValidBlockSize(blk) && Inv(blk, st, m) && data != []
    ensures Inv(blk, SlowAbsorb(blk, st, data), m + data) <==> Fits(blk, SlowTotal(blk, |st.pending| + |data|))
  {
    var buf := st.pending + data;
    var total := SlowTotal(blk, |buf|);
    if Fits(blk, total) {
      SlowAbsorbFits(blk, st, m, data);
    } else {
      SendBlocksBad(blk, st.log, buf, total);
    }
  }

  lemma FastKeep(blk: nat, n: nat)
    requires 0 < blk <= n
    ensures 0 < Keep(blk, n) <= n && Rem(n - Keep(blk, n), blk) == 0
    ensures Keep(blk, blk + n) == Keep(blk, n)
  {
    WholeFacts(n, blk);
    WholeFacts(0, blk);
    WholeAfter(n, blk, blk);
    RemAdd(blk, n, blk);
  }

  lemma FlushGood(blk: nat, st: State)
    requires ValidBlockSize(blk) && GoodLog(blk, st.log)
    requires |st.pending| == 0 || |st.pending| == blk
    ensures GoodLog(blk, Flush(blk, st))
    ensures Sent(Flush(blk, st).tasks) == Sent(st.log.tasks) + st.pending
  {
  }

  /** `GoodSend` for a task that is sent only when it has bytes. */
  lemma GoodSendSome(blk: nat, log: Log, data: seq<byte>)
    requires blk > 0 && GoodLog(blk, log) && Rem(|data|, blk) == 0 && |data| <= REQUEST_MAX
    ensures var log' := if |data| > 0 then SendTask(log, data, 0, false) else log;
            GoodLog(blk, log') && Sent(log'.tasks) == Sent(log.tasks) + data
  {
    if |data| > 0 {
      GoodSend(blk, log, data);
    }
  }

  lemma PendingKeep(blk: nat, st: State, n: nat)
    requires 0 < blk <= n && (|st.pending| == 0 || |st.pending| == blk)
    ensures Keep(blk, |st.pending| + n) == Keep(blk, n)
  {
  }

  lemma FastSent(blk: nat, st: State, data: seq<byte>)
    requires ValidBlockSize(blk) && GoodLog(blk, st.log) && blk <= |data| <= REQUEST_MAX
    requires |st.pending| == 0 || |st.pending| == blk
    ensures var st' := FastAbsorb(blk, st, data);
            GoodLog(blk, st'.log) && Sent(st'.log.tasks) + st'.pending == Sent(st.log.tasks) + (st.pending + data)
  {
    FastKeep(blk, |data|);
    FlushGood(blk, st);
    var bytes := |data| - Keep(blk, |data|);
    GoodSendSome(blk, Flush(blk, st), data[..bytes]);
    JoinTail(Sent(st.log.tasks), st.pending, data, bytes);
  }

  lemma FastAbsorbSafe(blk: nat, st: State, m: seq<byte>, data: seq<byte>)
    requires ValidBlockSize(blk) && Inv(blk, st, m) && blk <= |data| <= REQUEST_MAX
    requires |st.pending| == 0 || |st.pending| == blk
    ensures Inv(blk, FastAbsorb(blk, st, data), m + data)
  {
    var st' := FastAbsorb(blk, st, data);
    FastSent(blk, st, data);
    assert |st'.pending| == Keep(blk, |st.pending| + |data|) by {
      FastKeep(blk, |data|);
      PendingKeep(blk, st, |data|);
    }
    InvAfter(blk, st, m, data, st');
  }

  lemma JoinTail(sent: seq<byte>, pending: seq<byte>, data: seq<byte>, k: nat)
    requires k <= |data|
    ensures sent + pending + data[..k] + data[k..] == sent + (pending + data)
  {
  }

  /** A partial residual is not sent and not kept. */
  lemma FastAbsorbLoses(blk: nat, st: State, data: seq<byte>)
    requires ValidBlockSize(blk) && blk <= |data| && |st.pending| != blk
    ensures Sent(FastAbsorb(blk, st, data).log.tasks) + FastAbsorb(blk, st, data).pending
         == Sent(st.log.tasks) + data
  {
    FastKeep(blk, |data|);
    var bytes := |data| - Keep(blk, |data|);
    if bytes > 0 {
      SentAppend(st.log.tasks, FastAbsorb(blk, st, data).log.tasks[|st.log.tasks|]);
    }
    assert data[..bytes] + data[bytes..] == data;
  }

  /** The fast path keeps the invariant exactly when it finds no partial residual. */
  lemma FastAbsorbGood(blk: nat, st: State, m: seq<byte>, data: seq<byte>)
    requires ValidBlockSize(blk) && Inv(blk, st, m) && blk <= |data| <= REQUEST_MAX
    ensures Inv(blk, FastAbsorb(blk, st, data), m + data) <==> |st.pending| == 0 || |st.pending| == blk
  {
    if |st.pending| == 0 || |st.pending| == blk {
      FastAbsorbSafe(blk, st, m, data);
    } else {
      FastAbsorbLoses(blk, st, data);
      assert |Sent(st.log.tasks) + data| < |m + data|;
    }
  }
}
