/** The request context as the driver keeps it: one object whose fields and linear
    buffer the operations update in place. */
module ShaDriver {
  import opened Bytes
  import opened ShaStream
  import opened ShaRuns
  import opened ShaExact
  import opened ShaGuards

  /** `sg_pcopy_to_buffer`: len bytes of the scatterlist from offset skip on. */
  method CopyFromScatterlist(all: seq<byte>, buf: array<byte>, at: nat, len: nat, skip: nat)
    requires at + len <= buf.Length && skip + len <= |all|
    modifies buf
    ensures buf[..at + len] == old(buf[..at]) + all[skip..skip + len]
    ensures buf[at + len..] == old(buf[at + len..])
  {
    forall i | at <= i < at + len {
      buf[i] := all[skip + i - at];
    }
  }

  /** The driver's block count and its size in bytes. */
  method CountBlocks(blkSize: nat, n: nat) returns (numBlks: nat, nblkBytes: nat)
    requires blkSize > 0
    ensures nblkBytes == Whole(n, blkSize) <= n && (numBlks > 0 <==> n >= blkSize)
    ensures n >= blkSize ==> nblkBytes >= blkSize
  {
    numBlks := n / blkSize;
    nblkBytes := numBlks * blkSize;
    RemIsMod(n, blkSize);
    WholeFacts(n, blkSize);
  }

  /** How the fast path divides a request into held-back bytes and whole blocks. */
  method DivideRequest(blkSize: nat, nbytes: nat) returns (residual: nat, numBlks: nat, bytes: nat)
    requires 0 < blkSize <= nbytes
    ensures residual == Keep(blkSize, nbytes) <= blkSize && bytes == nbytes - residual && (numBlks > 0 <==> bytes > 0)
  {
    numBlks := nbytes / blkSize;
    RemIsMod(nbytes, blkSize);
    WholeFacts(nbytes, blkSize);
    residual := nbytes - (numBlks * blkSize);
    if numBlks > 0 && residual == 0 {
      residual := blkSize;
      assert (numBlks - 1) * blkSize == numBlks * blkSize - blkSize;
      numBlks := numBlks - 1;
    }
    bytes := numBlks * blkSize;
    if numBlks > 0 {
      MulMonotone(1, numBlks, blkSize);
    }
  }

  lemma {:induction false} RestIsShort(blk: nat, log: Log, buf: seq<byte>, total: nat)
    requires ValidBlockSize(blk) && total <= |buf|
    ensures |SendBlocks(blk, log, buf, total).1| < |buf| - total + blk
    decreases total
  {
    if total >= blk {
      var n := ChunkLen(blk, total);
      RestIsShort(blk, SendTask(log, buf[..n], 0, false), buf[n..], total - n);
    }
  }

  lemma SlowAbsorbIs(blk: nat, st: State, data: seq<byte>, log: Log, rest: seq<byte>)
    requires ValidBlockSize(blk) && data != []
    requires !CopyWraps(blk, |st.pending|, SlowTotal(blk, |st.pending + data|))
    requires SendBlocks(blk, st.log, st.pending + data, SlowTotal(blk, |st.pending + data|)) == (log, rest)
    ensures SlowAbsorb(blk, st, data)
         == State(log, rest, st.totalCount + |data|, st.forceAlign && |rest| != blk, st.outcome)
  {
  }

  class RequestContext {
    const blkSize: nat
    const shake: bool
    const shaBuf: array<byte>
    var residualBytes: nat
    var totalCount: nat
    var isFirst: bool
    var forceAlign: bool
    /** what went over the IVC channel */
    var tasks: seq<Task>
    var outcome: Outcome

    ghost predicate Valid()
      reads this
    {
      ValidBlockSize(blkSize) && shaBuf.Length == BUFFER_LEN
      && residualBytes <= 2 * blkSize && residualBytes <= totalCount
    }

    ghost function TaskLog(): Log
      reads this
    {
      Log(tasks, isFirst)
    }

    ghost function Abs(): State
      requires Valid()
      reads this, shaBuf
    {
      State(TaskLog(), shaBuf[..residualBytes], totalCount, forceAlign, outcome)
    }

    /** `sha_init` */
    constructor (blkSize: nat, shake: bool)
      requires ValidBlockSize(blkSize)
      ensures Valid() && fresh(shaBuf) && this.blkSize == blkSize && this.shake == shake
      ensures Abs() == INIT
    {
      this.blkSize, this.shake := blkSize, shake;
      shaBuf := new byte[BUFFER_LEN];
      residualBytes, totalCount, isFirst, forceAlign := 0, 0, true, false;
      tasks, outcome := [], Pending;
    }

    /** `send_sha_data`: the bytes are those the task's source address describes. */
    method SendShaData(data: seq<byte>, count: nat, islast: bool)
      requires count == |data|
      modifies this`tasks, this`isFirst
      ensures TaskLog() == SendTask(old(TaskLog()), data, totalCount, islast)
    {
      var msgTotal, msgLeft := count, count;
      if islast {
        msgTotal := totalCount;
      } else {
        var msgLen := (count + 8) % TWO32;
        msgLeft := msgLen;
        if isFirst {
          msgTotal := msgLen;
          isFirst := false;
        } else {
          msgLen := msgLen + 8;
          msgTotal := msgLen;
        }
      }
      tasks := tasks + [Task(data, msgTotal, msgLeft)];
    }

    /** `sha_send_one`: a task over the first nbytes of the buffer. */
    method SendOne(nbytes: nat, islast: bool)
      requires Valid() && (if islast then nbytes < BUFFER_LEN else nbytes <= BUFFER_LEN)
      modifies this`tasks, this`isFirst, this`totalCount, shaBuf
      ensures Valid() && (forall i :: 0 <= i < BUFFER_LEN && i != nbytes ==> shaBuf[i] == old(shaBuf[i]))
      ensures var st := State(old(TaskLog()), [], old(totalCount), forceAlign, outcome);
              var st' := ShaStream.SendOne(shake, st, old(shaBuf[..nbytes]), islast);
              TaskLog() == st'.log && totalCount == st'.totalCount
    {
      var n := nbytes;
      if islast && shake {
        shaBuf[n] := 0xff;
        n := n + 1;
        totalCount := totalCount + 1;
        assert shaBuf[..n] == old(shaBuf[..nbytes]) + [0xff];
      }
      SendShaData(shaBuf[..n], n, islast);
    }

    method FastPath(req: Request, isLast: bool, processCurReq: bool)
      requires Valid() && outcome != Undefined && req.WellFormed() && req.nents <= 1 && req.nbytes >= blkSize
      modifies this, shaBuf
      ensures Valid()
      ensures var absorbed := if isLast == processCurReq then FastAbsorb(blkSize, old(Abs()), req.Data()) else old(Abs());
              Abs() == if isLast then Finish(shake, absorbed) else absorbed
    {
      if isLast == processCurReq {
        AbsorbDirect(req);
      }
      if isLast {
        FinishLast();
      }
    }

    /** A residual of a whole block goes out before the request's own blocks. */
    method FlushResidual()
      requires Valid()
      modifies this`tasks, this`isFirst, this`totalCount, this`residualBytes, shaBuf
      ensures Valid() && TaskLog() == Flush(blkSize, old(Abs())) && totalCount == old(totalCount)
    {
      if residualBytes == blkSize {
        SendOne(residualBytes, false);
        residualBytes := 0;
      }
    }

    /** The part of the fast path that takes in the request's data: whole blocks go
        to the engine straight from the request, the rest into the buffer. */
    method AbsorbDirect(req: Request)
      requires Valid() && req.WellFormed() && req.nbytes >= blkSize
      modifies this, shaBuf
      ensures Valid() && Abs() == FastAbsorb(blkSize, old(Abs()), req.Data())
    {
      FlushResidual();
      var residual, numBlks, bytesProcessInReq := DivideRequest(blkSize, req.nbytes);
      HoldBack(req, residual, bytesProcessInReq);
      SendDirect(req, numBlks, bytesProcessInReq);
      if 0 < residualBytes < blkSize {
        forceAlign := true;
      }
    }

    /** The whole blocks of the request go out from where they are. */
    method SendDirect(req: Request, numBlks: nat, bytes: nat)
      requires Valid() && req.WellFormed() && bytes <= req.nbytes && (numBlks > 0 <==> bytes > 0)
      modifies this`tasks, this`isFirst, this`totalCount
      ensures Valid() && totalCount == old(totalCount) + bytes
      ensures TaskLog() == if bytes > 0 then SendTask(old(TaskLog()), req.Data()[..bytes], 0, false) else old(TaskLog())
    {
      if numBlks > 0 {
        totalCount := totalCount + bytes;
        SendShaData(req.Data()[..bytes], bytes, false);
      }
    }

    /** The end of the request goes into the buffer. */
    method HoldBack(req: Request, residual: nat, skip: nat)
      requires Valid() && req.WellFormed() && residual <= blkSize && residual + skip == req.nbytes
      modifies this`residualBytes, this`totalCount, shaBuf
      ensures Valid() && residualBytes == residual && totalCount == old(totalCount) + residual
      ensures shaBuf[..residual] == req.Data()[skip..]
    {
      residualBytes := residual;
      totalCount := totalCount + residualBytes;
      CopyFromScatterlist(req.bytes, shaBuf, 0, residualBytes, skip);
      assert shaBuf[..residualBytes] == req.Data()[skip..];
    }

    method SlowPath(req: Request, isLast: bool, processCurReq: bool)
      requires Valid() && outcome != Undefined && req.WellFormed() && req.nbytes > 0
      modifies this, shaBuf
      ensures Valid()
      ensures var absorbed := if isLast == processCurReq then SlowAbsorb(blkSize, old(Abs()), req.Data()) else old(Abs());
              Abs() == if isLast then Finish(shake, absorbed) else absorbed
    {
      if isLast == processCurReq {
        AbsorbLinear(req);
      }
      if isLast {
        FinishLast();
      }
    }

    /** Copy the next chunk behind the first offset bytes of the buffer and send it;
        `rest` is what the buffer and the request still hold. */
    method SendChunk(req: Request, totalBytes: nat, offset: nat, skip: nat, ghost rest: seq<byte>) returns (length: nat)
      requires Valid() && req.WellFormed() && blkSize <= totalBytes <= |rest| && skip <= req.nbytes
      requires offset <= ChunkLen(blkSize, totalBytes) && rest == shaBuf[..offset] + req.Data()[skip..]
      modifies this`tasks, this`isFirst, this`totalCount, shaBuf
      ensures Valid() && length + offset == ChunkLen(blkSize, totalBytes) && totalCount == old(totalCount) + length
      ensures TaskLog() == SendTask(old(TaskLog()), rest[..length + offset], 0, false)
      ensures skip + length <= req.nbytes && rest[length + offset..] == req.Data()[skip + length..]
    {
      var numBlks, nblkBytes := CountBlocks(blkSize, totalBytes);
      length := Min(BUFFER_LEN, nblkBytes) - offset;
      NextChunk(shaBuf[..offset], req.Data(), length, skip);
      CopyFromScatterlist(req.bytes, shaBuf, offset, length, skip);
      DataSlice(req, skip, skip + length);
      totalCount := totalCount + length;
      SendOne(length + offset, false);
    }

    /** Where the loop stands: `goal` is what all chunks together have to come to, the
        buffer still holds `pending` until the first chunk has gone. */
    ghost predicate Sending(req: Request, pending: seq<byte>, goal: (Log, seq<byte>), totalBytes: int, offset: nat,
                            skip: nat, dataProcessed: bool)
      reads this, shaBuf
    {
      && Valid() && req.WellFormed() && skip <= req.nbytes && 0 <= totalBytes <= offset + req.nbytes - skip
      && (if dataProcessed then offset == 0 else skip == 0 && offset == residualBytes && shaBuf[..offset] == pending)
      && !CopyWraps(blkSize, offset, totalBytes)
      && SendBlocks(blkSize, TaskLog(), shaBuf[..offset] + req.Data()[skip..], totalBytes) == goal
    }

    /** One turn of the loop. */
    method SendNext(req: Request, totalBytes: nat, offset: nat, skip: nat, ghost pending: seq<byte>,
                    ghost goal: (Log, seq<byte>), ghost dataProcessed: bool)
      returns (length: nat)
      requires Sending(req, pending, goal, totalBytes, offset, skip, dataProcessed) && totalBytes >= blkSize
      modifies this`tasks, this`isFirst, this`totalCount, shaBuf
      ensures length + offset <= totalBytes && length + offset > 0 && totalCount == old(totalCount) + length
      ensures Sending(req, pending, goal, totalBytes - (length + offset), 0, skip + length, true)
    {
      ghost var rest := shaBuf[..offset] + req.Data()[skip..];
      length := SendChunk(req, totalBytes, offset, skip, rest);
      assert shaBuf[..0] + req.Data()[skip + length..] == rest[length + offset..];
    }

    /** The loop of the slow path: chunk after chunk while a block is covered. */
    method SendChunks(req: Request, total: nat) returns (skip: nat, leftBytes: nat, dataProcessed: bool)
      requires Valid() && !CopyWraps(blkSize, residualBytes, total) && req.WellFormed()
      requires total <= residualBytes + req.nbytes
      modifies this`tasks, this`isFirst, this`totalCount, shaBuf
      ensures Valid() && skip + leftBytes == req.nbytes && totalCount == old(totalCount) + skip
      ensures var buf := old(shaBuf[..residualBytes]) + req.Data();
              SendBlocks(blkSize, old(TaskLog()), buf, total)
              == (TaskLog(), if dataProcessed then req.Data()[skip..] else buf)
      ensures !dataProcessed ==> skip == 0 && shaBuf[..residualBytes] == old(shaBuf[..residualBytes])
    {
      var totalBytes: nat, offset: nat := total, residualBytes;
      skip, leftBytes, dataProcessed := 0, req.nbytes, false;
      ghost var pending := shaBuf[..residualBytes];
      ghost var goal := SendBlocks(blkSize, TaskLog(), pending + req.Data(), total);
      assert req.Data()[0..] == req.Data();
      while totalBytes >= blkSize
        invariant Sending(req, pending, goal, totalBytes, offset, skip, dataProcessed)
        invariant totalCount == old(totalCount) + skip && leftBytes == req.nbytes - skip
        decreases totalBytes
      {
        var length := SendNext(req, totalBytes, offset, skip, pending, goal, dataProcessed);
        skip := skip + length;
        totalBytes := totalBytes - (length + offset);
        leftBytes := leftBytes - length;
        offset := 0;
        dataProcessed := true;
      }
      assert dataProcessed ==> shaBuf[..offset] + req.Data()[skip..] == req.Data()[skip..];
    }

    /** Hold back what the loop left over, or pile the whole request up. */
    method TakeRest(req: Request, skip: nat, leftBytes: nat, dataProcessed: bool)
      requires Valid() && req.WellFormed() && skip + leftBytes == req.nbytes
      requires if dataProcessed then leftBytes <= 2 * blkSize else skip == 0 && residualBytes + req.nbytes <= 2 * blkSize
      modifies this`residualBytes, this`totalCount, shaBuf
      ensures Valid() && totalCount == old(totalCount) + leftBytes
      ensures shaBuf[..residualBytes]
           == if dataProcessed then req.Data()[skip..] else old(shaBuf[..residualBytes]) + req.Data()
    {
      if dataProcessed {
        CopyFromScatterlist(req.bytes, shaBuf, 0, leftBytes, skip);
        totalCount := totalCount + leftBytes;
        residualBytes := leftBytes;
        assert shaBuf[..residualBytes] == req.Data()[skip..];
      } else {
        CopyFromScatterlist(req.bytes, shaBuf, residualBytes, req.nbytes, skip);
        totalCount := totalCount + req.nbytes;
        residualBytes := residualBytes + req.nbytes;
        assert shaBuf[..residualBytes] == old(shaBuf[..residualBytes]) + req.Data();
      }
    }

    /** Send what total allows and keep the rest. */
    method SendAndKeep(req: Request, total: nat)
      requires Valid() && !CopyWraps(blkSize, residualBytes, total) && req.WellFormed()
      requires total <= residualBytes + req.nbytes <= total + blkSize
      modifies this`tasks, this`isFirst, this`totalCount, this`residualBytes, shaBuf
      ensures Valid() && totalCount == old(totalCount) + req.nbytes
      ensures (TaskLog(), shaBuf[..residualBytes])
           == SendBlocks(blkSize, old(TaskLog()), old(shaBuf[..residualBytes]) + req.Data(), total)
    {
      RestIsShort(blkSize, TaskLog(), shaBuf[..residualBytes] + req.Data(), total);
      var skip, leftBytes, dataProcessed := SendChunks(req, total);
      TakeRest(req, skip, leftBytes, dataProcessed);
    }

    /** How many buffered bytes may be sent, and whether the first copy's length wraps. */
    method SlowLimit(nbytes: nat) returns (total: nat, wraps: bool)
      requires Valid() && nbytes > 0
      ensures total == SlowTotal(blkSize, residualBytes + nbytes) && wraps == CopyWraps(blkSize, residualBytes, total)
    {
      var totalBytes := residualBytes + nbytes;
      var numBlks, nblkBytes := CountBlocks(blkSize, totalBytes);
      total := totalBytes;
      if totalBytes - nblkBytes == 0 {
        total := total - blkSize;
      }
      numBlks, nblkBytes := CountBlocks(blkSize, total);
      wraps := numBlks > 0 && Min(BUFFER_LEN, nblkBytes) < residualBytes;
    }

    /** The part of the slow path that takes in the request's data. */
    method AbsorbLinear(req: Request)
      requires Valid() && outcome != Undefined && req.WellFormed() && req.nbytes > 0
      modifies this, shaBuf
      ensures Valid() && Abs() == SlowAbsorb(blkSize, old(Abs()), req.Data())
    {
      ghost var before := Abs();
      var totalBytes, wraps := SlowLimit(req.nbytes);
      if wraps {
        outcome := Undefined;
        return;
      }
      SendAndKeep(req, totalBytes);
      SlowAbsorbIs(blkSize, before, req.Data(), TaskLog(), shaBuf[..residualBytes]);
      if forceAlign && residualBytes == blkSize {
        forceAlign := false;
      }
    }

    /** The common tail of both paths: hash what is held back as the last data. */
    method FinishLast()
      requires Valid()
      modifies this, shaBuf
      ensures Valid() && Abs() == Finish(shake, old(Abs()))
    {
      if outcome == Undefined {
        return;
      }
      if residualBytes > 0 {
        SendOne(residualBytes, true);
        residualBytes := 0;
      }
      outcome := EngineDigest;
    }

    /** `sha_op` */
    method Op(req: Request, isLast: bool, processCurReq: bool)
      requires Valid() && req.WellFormed()
      modifies this, shaBuf
      ensures Valid() && Abs() == ShaOp(blkSize, shake, old(Abs()), req, isLast, processCurReq)
    {
      if outcome == Undefined {
        return;
      }
      if req.nbytes == 0 {
        if totalCount > 0 {
          if !isLast {
            return;
          }
          FinishLast();
          return;
        }
        if shake {
          SendOne(0, isLast);
          if isLast {
            outcome := EngineDigest;
          }
          return;
        }
        if isLast {
          outcome := ZeroLengthVector;
        }
        return;
      }
      var numBlks, _ := CountBlocks(blkSize, req.nbytes);
      if req.nents > 1 {
        forceAlign := true;
      }
      if !forceAlign && numBlks > 0 {
        FastPath(req, isLast, processCurReq);
      } else {
        SlowPath(req, isLast, processCurReq);
      }
    }
  }

  lemma DataSlice(req: Request, from: nat, to: nat)
    requires from <= to <= req.nbytes <= |req.bytes|
    ensures req.Data()[from..to] == req.bytes[from..to]
  {
  }

  /** The chunk in the linear buffer is the next stretch of buffer and request. */
  lemma NextChunk(head: seq<byte>, data: seq<byte>, length: nat, skip: nat)
    requires skip + length <= |data|
    ensures (head + data[skip..])[..|head| + length] == head + data[skip..skip + length]
    ensures (head + data[skip..])[|head| + length..] == data[skip + length..]
  {
  }

  /** The crypto device's way of hashing: one update per request, then final on the
      last request again, its byte count still set. A safe run leaves the one-shot
      hash of all the bytes in the engine, whatever it held before; the device's own
      requests, split over several entries, are safe when blocks divide the buffer. */
  method HashStream<H>(blkSize: nat, shake: bool, reqs: seq<Request>, ghost alg: HashAlg<H>, ghost before: H)
    returns (ctx: RequestContext)
    requires ValidBlockSize(blkSize) && reqs != [] && WellFormedRun(reqs)
    ensures fresh(ctx) && ctx.Valid()
    ensures ctx.Abs() == Final(blkSize, shake, RunUpdates(blkSize, shake, reqs), reqs[|reqs| - 1])
    ensures SafeRun(blkSize, shake, reqs) ==> Delivers(alg, blkSize, shake, before, ctx.Abs(), Message(reqs))
    ensures AlwaysDelivers(blkSize, shake, ctx.Abs(), Message(reqs)) <==> AllSafe(blkSize, reqs)
    ensures SafeRun(blkSize, shake, reqs) <==> AllSafe(blkSize, reqs)
    ensures (forall i :: 0 <= i < |reqs| ==> reqs[i].nbytes == 0 || Ordinary(blkSize, reqs[i])) ==>
              SafeRun(blkSize, shake, reqs)
  {
    ctx := new RequestContext(blkSize, shake);
    for i := 0 to |reqs|
      invariant fresh(ctx) && fresh(ctx.shaBuf) && ctx.Valid() && ctx.blkSize == blkSize && ctx.shake == shake
      invariant ctx.Abs() == RunUpdates(blkSize, shake, reqs[..i])
    {
      ctx.Op(reqs[i], false, false);
      assert reqs[..i + 1] == reqs[..i] + [reqs[i]];
      RunAppend(blkSize, shake, reqs[..i], reqs[i]);
    }
    assert reqs[..|reqs|] == reqs;
    ctx.Op(reqs[|reqs| - 1], true, false);
    if Message(reqs) == [] {
      LastOfEmpty(reqs);
    }
    FinalExactIff(blkSize, shake, reqs, reqs[|reqs| - 1]);
    SafeRunIff(blkSize, shake, reqs);
    if SafeRun(blkSize, shake, reqs) {
      FinalRefinesOneShot(alg, blkSize, shake, before, reqs, reqs[|reqs| - 1]);
    }
    if forall i :: 0 <= i < |reqs| ==> reqs[i].nbytes == 0 || Ordinary(blkSize, reqs[i]) {
      OrdinaryRunIsSafe(blkSize, shake, reqs);
    }
  }

  /** The stale byte count is zero when no request had any data. */
  lemma LastOfEmpty(reqs: seq<Request>)
    requires reqs != [] && WellFormedRun(reqs) && Message(reqs) == []
    ensures reqs[|reqs| - 1].nbytes == 0
  {
  }
}
