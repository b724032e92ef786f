/** Exactly which runs deliver the one-shot hash: the safe ones and no others. What an
    unsafe run loses shows in the length of a hash that only concatenates blocks. */
module ShaExact {
  import opened Bytes
  import opened ShaStream
  import opened ShaRuns

  // ----- what an unsafe run loses ----------------------------------------------

  /** How many bytes of the tasks the engine can compress: whole blocks of each. */
  function Compressed(blk: nat, tasks: seq<Task>): nat
    requires blk > 0
  {
    if tasks == [] then 0
    else Compressed(blk, tasks[..|tasks| - 1]) + Whole(|tasks[|tasks| - 1].data|, blk)
  }

  predicate NoneSaysLast(tasks: seq<Task>) {
    forall i :: 0 <= i < |tasks| ==> !SaysLast(tasks[i])
  }

  /** After n counted bytes at least `gap` of them can no longer reach the digest. */
  predicate Short(blk: nat, st: State, n: nat, gap: nat)
    requires blk > 0
  {
    || st.outcome == Undefined
    || (&& st.outcome == Pending && st.totalCount == n && NoneSaysLast(st.log.tasks)
        && Compressed(blk, st.log.tasks) + |st.pending| + gap <= n)
  }

  lemma SendCompresses(blk: nat, log: Log, data: seq<byte>)
    requires blk > 0 && NoneSaysLast(log.tasks)
    ensures var log' := SendTask(log, data, 0, false);
            NoneSaysLast(log'.tasks) && Compressed(blk, log'.tasks) == Compressed(blk, log.tasks) + Whole(|data|, blk)
  {
    var log' := SendTask(log, data, 0, false);
    assert log'.tasks[..|log.tasks|] == log.tasks;
  }

  /** The chunk loop gains no bytes, and loses some when its request does not fit. */
  lemma {:induction false} SendBlocksShort(blk: nat, log: Log, buf: seq<byte>, total: nat)
    requires ValidBlockSize(blk) && total <= |buf| && NoneSaysLast(log.tasks)
    ensures var (log', rest) := SendBlocks(blk, log, buf, total);
            && NoneSaysLast(log'.tasks)
            && Compressed(blk, log'.tasks) + |rest| <= Compressed(blk, log.tasks) + |buf|
            && (!Fits(blk, total) ==> Compressed(blk, log'.tasks) + |rest| < Compressed(blk, log.tasks) + |buf|)
    decreases total
  {
    WholeFacts(total, blk);
    if total >= blk {
      var n := ChunkLen(blk, total);
      SendCompresses(blk, log, buf[..n]);
      SendBlocksShort(blk, SendTask(log, buf[..n], 0, false), buf[n..], total - n);
    }
  }

  lemma FastShort(blk: nat, st: State, data: seq<byte>, n: nat, gap: nat)
    requires ValidBlockSize(blk) && blk <= |data| && st.outcome != Undefined && Short(blk, st, n, gap)
    ensures Short(blk, FastAbsorb(blk, st, data), n + |data|, gap)
    ensures 0 < |st.pending| < blk ==> Short(blk, FastAbsorb(blk, st, data), n + |data|, gap + 1)
  {
    FastKeep(blk, |data|);
    SendCompresses(blk, st.log, st.pending);
    var flushed := Flush(blk, st);
    assert Compressed(blk, flushed.tasks) <= Compressed(blk, st.log.tasks) + |st.pending|;
    SendCompresses(blk, flushed, data[..|data| - Keep(blk, |data|)]);
  }

  lemma SlowShort(blk: nat, st: State, data: seq<byte>, n: nat, gap: nat)
    requires ValidBlockSize(blk) && data != [] && st.outcome != Undefined && Short(blk, st, n, gap)
    ensures Short(blk, SlowAbsorb(blk, st, data), n + |data|, gap)
    ensures !Fits(blk, SlowTotal(blk, |st.pending| + |data|)) ==> Short(blk, SlowAbsorb(blk, st, data), n + |data|, gap + 1)
  {
    var buf := st.pending + data;
    SendBlocksShort(blk, st.log, buf, SlowTotal(blk, |buf|));
  }

  /** What is lost stays lost. */
  lemma UpdateShort(blk: nat, shake: bool, st: State, req: Request, n: nat, gap: nat)
    requires ValidBlockSize(blk) && req.WellFormed() && Short(blk, st, n, gap)
    ensures Short(blk, Update(blk, shake, st, req), n + req.nbytes, gap)
  {
    if st.outcome != Undefined {
      if req.nbytes == 0 {
        SendCompresses(blk, st.log, []);
      } else {
        var st0 := st.(forceAlign := Aligning(st, req));
        if TakesFastPath(blk, st, req) {
          FastShort(blk, st0, req.Data(), n, gap);
        } else {
          SlowShort(blk, st0, req.Data(), n, gap);
        }
      }
    }
  }

  lemma {:induction false} InvCompresses(blk: nat, log: Log)
    requires blk > 0 && GoodLog(blk, log)
    ensures NoneSaysLast(log.tasks) && Compressed(blk, log.tasks) <= |Sent(log.tasks)|
    decreases |log.tasks|
  {
    if log.tasks != [] {
      var k := |log.tasks| - 1;
      InvCompresses(blk, Log(log.tasks[..k], k == 0));
      assert GoodTask(blk, log.tasks[k], k == 0);
      forall i | 0 <= i < k ensures !SaysLast(log.tasks[i]) {
        assert log.tasks[i] == log.tasks[..k][i];
      }
    }
  }

  lemma InvShort(blk: nat, st: State, m: seq<byte>)
    requires blk > 0 && Inv(blk, st, m)
    ensures Short(blk, st, |m|, 0)
  {
    InvCompresses(blk, st.log);
    assert |Sent(st.log.tasks) + st.pending| == |m|;
  }

  /** An unsafe update of an intact hash loses at least a byte. */
  lemma UnsafeLoses(blk: nat, shake: bool, st: State, m: seq<byte>, req: Request)
    requires ValidBlockSize(blk) && req.WellFormed() && req.nbytes > 0 && Inv(blk, st, m) && !Safe(blk, st, req)
    ensures Short(blk, Update(blk, shake, st, req), |m| + req.nbytes, 1)
  {
    InvShort(blk, st, m);
    var st0 := st.(forceAlign := Aligning(st, req));
    if TakesFastPath(blk, st, req) {
      FastShort(blk, st0, req.Data(), |m|, 0);
    } else {
      SlowShort(blk, st0, req.Data(), |m|, 0);
    }
  }

  lemma {:induction false} UnsafeRunLoses(blk: nat, shake: bool, reqs: seq<Request>)
    requires ValidBlockSize(blk) && WellFormedRun(reqs) && !SafeRun(blk, shake, reqs)
    ensures Short(blk, RunUpdates(blk, shake, reqs), |Message(reqs)|, 1)
  {
    var n := |reqs| - 1;
    var before, m := RunUpdates(blk, shake, reqs[..n]), Message(reqs[..n]);
    if SafeRun(blk, shake, reqs[..n]) {
      RunInv(blk, shake, reqs[..n]);
      UnsafeLoses(blk, shake, before, m, reqs[n]);
    } else {
      UnsafeRunLoses(blk, shake, reqs[..n]);
      UpdateShort(blk, shake, before, reqs[n], |m|, 1);
    }
  }

  // ----- a hash that shows it -----------------------------------------------------

  /** Compression by concatenation, padding to the next block. */
  function Concat(blk: nat): HashAlg<seq<byte>>
    requires blk > 0
  {
    HashAlg([], (h: seq<byte>, b: seq<byte>) => h + b, (n: nat) => seq(blk - Rem(n, blk), _ => 0))
  }

  /** Folding it over bytes appends their whole blocks. */
  lemma {:induction false} ConcatFold(blk: nat, h: seq<byte>, s: seq<byte>)
    requires blk > 0
    ensures FoldBlocks(Concat(blk), blk, h, s) == h + s[..Whole(|s|, blk)]
    decreases |s|
  {
    WholeFacts(|s|, blk);
    if |s| >= blk {
      ConcatFold(blk, h + s[..blk], s[blk..]);
      WholeAfter(|s|, blk, blk);
      Rejoin(h, s, blk, Whole(|s|, blk));
    }
  }

  lemma {:induction false} ConcatEngine(blk: nat, tasks: seq<Task>)
    requires blk > 0 && NoneSaysLast(tasks)
    ensures |RunEngine(Concat(blk), blk, [], tasks)| <= Compressed(blk, tasks)
  {
    if tasks != [] {
      var k := |tasks| - 1;
      ConcatEngine(blk, tasks[..k]);
      var h := RunEngine(Concat(blk), blk, [], tasks[..k]);
      ConcatFold(blk, h, tasks[k].data);
      ConcatFold(blk, [], tasks[k].data);
      assert !SaysLast(tasks[k]);
    }
  }

  /** Nothing of a padded message is cut off. */
  lemma ConcatOneShot(blk: nat, shake: bool, m: seq<byte>)
    requires blk > 0
    ensures var m' := Suffixed(shake, m);
            && OneShot(Concat(blk), blk, shake, m) == m' + Concat(blk).pad(|m'|)
            && |OneShot(Concat(blk), blk, shake, m)| == |m'| + |Concat(blk).pad(|m'|)| > |m'|
  {
    var m' := Suffixed(shake, m);
    var s := m' + Concat(blk).pad(|m'|);
    WholeFacts(|m'|, blk);
    RemAdd(Whole(|m'|, blk), blk, blk);
    assert |s| == Whole(|m'|, blk) + blk;
    ConcatFold(blk, [], s);
    assert [] + s[..|s|] == s;
  }

  /** The last task adds at most its data and padding to what the engine holds. */
  lemma LastStep(blk: nat, h: seq<byte>, t: Task)
    requires blk > 0 && SaysLast(t)
    ensures |EngineStep(Concat(blk), blk, h, t)| <= |h| + |t.data| + |Concat(blk).pad(t.msgTotal)|
  {
    var s := t.data + Concat(blk).pad(t.msgTotal);
    ConcatFold(blk, h, s);
    ConcatFold(blk, [], s);
  }

  lemma LastIsShort(blk: nat, shake: bool, st: State, m: seq<byte>)
    requires blk > 0 && st.outcome == Pending && st.pending != [] && Short(blk, st, |m|, 1)
    ensures |RunEngine(Concat(blk), blk, [], Finish(shake, st).log.tasks)| < |OneShot(Concat(blk), blk, shake, m)|
  {
    var alg, tail := Concat(blk), Suffixed(shake, st.pending);
    var total := |Suffixed(shake, m)|;
    var h := RunEngine(alg, blk, [], st.log.tasks);
    FinishTask(shake, st);
    RunEngineAppend(alg, blk, [], st.log.tasks, Task(tail, total, |tail|));
    ConcatEngine(blk, st.log.tasks);
    LastStep(blk, h, Task(tail, total, |tail|));
    ConcatOneShot(blk, shake, m);
  }

  /** A hash that has lost bytes, finished, is not the one-shot hash of them all. */
  lemma ShortFails(blk: nat, shake: bool, st: State, m: seq<byte>)
    requires blk > 0 && Short(blk, st, |m|, 1)
    ensures !Delivers(Concat(blk), blk, shake, [], Finish(shake, st), m)
  {
    if st.outcome != Undefined {
      if st.pending == [] {
        ConcatEngine(blk, st.log.tasks);
        ConcatOneShot(blk, shake, m);
      } else {
        LastIsShort(blk, shake, st, m);
      }
    }
  }

  // ----- whole runs -------------------------------------------------------------------

  /** Every hash is delivered, whatever the engine held before. */
  ghost predicate AlwaysDelivers(blk: nat, shake: bool, st: State, m: seq<byte>)
    requires blk > 0
  {
    forall alg: HashAlg<seq<byte>>, h: seq<byte> :: Delivers(alg, blk, shake, h, st, m)
  }

  /** Final without data but with a byte count sends nothing to hash. */
  lemma StaleFails(blk: nat, shake: bool, reqs: seq<Request>, last: Request)
    requires ValidBlockSize(blk) && WellFormedRun(reqs) && last.WellFormed() && SafeRun(blk, shake, reqs)
    requires Message(reqs) == [] && last.nbytes > 0
    ensures !Delivers(Concat(blk), blk, shake, [], Final(blk, shake, RunUpdates(blk, shake, reqs), last), [])
  {
    var st := RunUpdates(blk, shake, reqs);
    RunInv(blk, shake, reqs);
    InvShort(blk, st, []);
    ConcatEngine(blk, st.log.tasks);
    ConcatOneShot(blk, shake, []);
  }

  lemma UnsafeFinalFails(blk: nat, shake: bool, reqs: seq<Request>, last: Request)
    requires ValidBlockSize(blk) && WellFormedRun(reqs) && last.WellFormed() && !SafeRun(blk, shake, reqs)
    ensures !Delivers(Concat(blk), blk, shake, [], Final(blk, shake, RunUpdates(blk, shake, reqs), last), Message(reqs))
  {
    var st := RunUpdates(blk, shake, reqs);
    UnsafeRunLoses(blk, shake, reqs);
    ShortFails(blk, shake, if last.nbytes == 0 then st else st.(forceAlign := Aligning(st, last)), Message(reqs));
  }

  /** A run of updates closed by final delivers every hash if and only if it is safe
      and final does not bring a byte count to a hash without data. */
  lemma FinalExactIff(blk: nat, shake: bool, reqs: seq<Request>, last: Request)
    requires ValidBlockSize(blk) && WellFormedRun(reqs) && last.WellFormed()
    ensures AlwaysDelivers(blk, shake, Final(blk, shake, RunUpdates(blk, shake, reqs), last), Message(reqs))
            <==> SafeRun(blk, shake, reqs) && (Message(reqs) != [] || last.nbytes == 0)
  {
    if !SafeRun(blk, shake, reqs) {
      UnsafeFinalFails(blk, shake, reqs, last);
    } else if Message(reqs) == [] && last.nbytes > 0 {
      StaleFails(blk, shake, reqs, last);
    } else {
      forall alg: HashAlg<seq<byte>>, h: seq<byte>
        ensures Delivers(alg, blk, shake, h, Final(blk, shake, RunUpdates(blk, shake, reqs), last), Message(reqs))
      {
        FinalRefinesOneShot(alg, blk, shake, h, reqs, last);
      }
    }
  }

  lemma UnsafeFinupFails(blk: nat, shake: bool, reqs: seq<Request>, last: Request)
    requires ValidBlockSize(blk) && WellFormedRun(reqs) && last.WellFormed() && WellFormedRun(reqs + [last])
    requires !SafeRun(blk, shake, reqs + [last])
    ensures !Delivers(Concat(blk), blk, shake, [], Finup(blk, shake, RunUpdates(blk, shake, reqs), last), Message(reqs + [last]))
  {
    var before := RunUpdates(blk, shake, reqs);
    RunAppend(blk, shake, reqs, last);
    UnsafeRunLoses(blk, shake, reqs + [last]);
    ShortFails(blk, shake, RunUpdates(blk, shake, reqs + [last]), Message(reqs + [last]));
    if before.outcome != Undefined {
      if last.nbytes == 0 {
        UnsafeRunLoses(blk, shake, reqs);
      }
      FinupIsUpdateThenFinish(blk, shake, before, last);
    }
  }

  /** The same for finup, and with no earlier updates for digest. */
  lemma FinupExactIff(blk: nat, shake: bool, reqs: seq<Request>, last: Request)
    requires ValidBlockSize(blk) && WellFormedRun(reqs) && last.WellFormed() && WellFormedRun(reqs + [last])
    ensures AlwaysDelivers(blk, shake, Finup(blk, shake, RunUpdates(blk, shake, reqs), last), Message(reqs + [last]))
            <==> SafeRun(blk, shake, reqs + [last])
  {
    if SafeRun(blk, shake, reqs + [last]) {
      forall alg: HashAlg<seq<byte>>, h: seq<byte>
        ensures Delivers(alg, blk, shake, h, Finup(blk, shake, RunUpdates(blk, shake, reqs), last), Message(reqs + [last]))
      {
        FinupRefinesOneShot(alg, blk, shake, h, reqs, last);
      }
    } else {
      UnsafeFinupFails(blk, shake, reqs, last);
    }
  }
}
