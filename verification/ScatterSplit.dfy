/** Turning a scatterlist into the (address, length) list of an engine message. */
module ScatterSplit {
  import opened Bytes

  /** Entries at least this long are split (TEGRA_VIRTUAL_SE_MAX_BUFFER_SIZE). */
  const MAX_BUFFER_SIZE: nat := 0x100_0000

  datatype Entry = Entry(dma: nat, length: nat)

  datatype Range = Range(lo: nat, hi: nat)

  predicate ValidBlock(blk: nat) {
    0 < blk < MAX_BUFFER_SIZE
  }

  /** The ranges for the len bytes at dma + off; addresses are 32 bits wide. */
  function Ranges(dma: nat, off: nat, len: nat, blk: nat): seq<Range>
    requires ValidBlock(blk)
    decreases len
  {
    var lo := (dma + off) % TWO32;
    if len >= MAX_BUFFER_SIZE then
      var n := MAX_BUFFER_SIZE - blk;
      [Range(lo, n)] + Ranges(dma, off + n, len - n, blk)
    else if len > 0 then [Range(lo, len)]
    else []
  }

  /** The list for the first `total` bytes of the scatterlist. */
  function Split(sg: seq<Entry>, total: nat, blk: nat): seq<Range>
    requires ValidBlock(blk)
  {
    if sg == [] || total == 0 then []
    else
      var len := Min(sg[0].length, total);
      Ranges(sg[0].dma, 0, len, blk) + Split(sg[1..], total - len, blk)
  }

  /** How many entries have to be mapped for it. */
  function Visited(sg: seq<Entry>, total: nat): (n: nat)
    ensures n <= |sg|
  {
    if sg == [] || total == 0 then 0 else 1 + Visited(sg[1..], total - Min(sg[0].length, total))
  }

  // ----- what the list describes ---------------------------------------------

  /** The 32-bit addresses of len bytes from dma on. */
  function Span(dma: nat, len: nat): (s: seq<nat>)
    ensures |s| == len
  {
    seq(len, j requires 0 <= j => (dma + j) % TWO32)
  }

  function Described(ranges: seq<Range>): seq<nat> {
    if ranges == [] then [] else Span(ranges[0].lo, ranges[0].hi) + Described(ranges[1..])
  }

  function Addresses(sg: seq<Entry>): seq<nat> {
    if sg == [] then [] else Span(sg[0].dma, sg[0].length) + Addresses(sg[1..])
  }

  lemma {:induction false} DescribedAppend(a: seq<Range>, b: seq<Range>)
    ensures Described(a + b) == Described(a) + Described(b)
  {
    if a == [] {
      assert a + b == b;
    } else {
      assert (a + b)[1..] == a[1..] + b;
      DescribedAppend(a[1..], b);
    }
  }

  lemma SpanSplit(dma: nat, off: nat, n: nat, len: nat)
    requires n <= len
    ensures Span((dma + off) % TWO32, n) + Span(dma + (off + n), len - n) == Span(dma + off, len)
  {
    var left, right := Span((dma + off) % TWO32, n), Span(dma + (off + n), len - n);
    forall j | 0 <= j < len ensures (left + right)[j] == Span(dma + off, len)[j] {
      if j < n {
        AddressWraps(dma + off, j);
      } else {
        assert (left + right)[j] == right[j - n];
      }
    }
  }

  /** Address arithmetic may wrap before or after an offset is added. */
  lemma AddressWraps(a: nat, j: nat)
    ensures (a % TWO32 + j) % TWO32 == (a + j) % TWO32
  {
  }

  lemma DescribedCons(r: Range, rest: seq<Range>)
    ensures Described([r] + rest) == Span(r.lo, r.hi) + Described(rest)
  {
  }

  lemma {:induction false} RangesExact(dma: nat, off: nat, len: nat, blk: nat)
    requires ValidBlock(blk)
    ensures Described(Ranges(dma, off, len, blk)) == Span(dma + off, len)
    decreases len
  {
    var lo := (dma + off) % TWO32;
    if len >= MAX_BUFFER_SIZE {
      var n := MAX_BUFFER_SIZE - blk;
      RangesExact(dma, off + n, len - n, blk);
      DescribedCons(Range(lo, n), Ranges(dma, off + n, len - n, blk));
      SpanSplit(dma, off, n, len);
    } else if len > 0 {
      DescribedCons(Range(lo, len), []);
      SpanSplit(dma, off, len, len);
    }
  }

  lemma {:induction false} RangesBounded(dma: nat, off: nat, len: nat, blk: nat)
    requires ValidBlock(blk)
    ensures Bounded(Ranges(dma, off, len, blk))
    decreases len
  {
    if len >= MAX_BUFFER_SIZE {
      RangesBounded(dma, off + (MAX_BUFFER_SIZE - blk), len - (MAX_BUFFER_SIZE - blk), blk);
    }
  }

  /** Every piece has 1 to 2^24 - 1 bytes. */
  predicate Bounded(ranges: seq<Range>) {
    forall i :: 0 <= i < |ranges| ==> 1 <= ranges[i].hi < MAX_BUFFER_SIZE
  }

  lemma OneBlockLess(n: nat, blk: nat)
    requires 0 < blk <= n
    ensures Rem(n - blk, blk) == Rem(n, blk)
  {
    WholeFacts(blk, blk);
    RemAdd(blk, n - blk, blk);
  }

  predicate AllButLast(rs: seq<Range>, n: nat) {
    forall i :: 0 <= i < |rs| - 1 ==> rs[i].hi == n
  }

  lemma AllButLastCons(r: Range, rest: seq<Range>, n: nat)
    requires AllButLast(rest, n) && r.hi == n
    ensures AllButLast([r] + rest, n)
  {
    assert forall i :: 0 < i < |[r] + rest| ==> ([r] + rest)[i] == rest[i - 1];
  }

  /** Where long entries are cut: every range but the last has 16 MiB less one block. */
  lemma {:induction false} RangesAligned(dma: nat, off: nat, len: nat, blk: nat)
    requires ValidBlock(blk)
    ensures AllButLast(Ranges(dma, off, len, blk), MAX_BUFFER_SIZE - blk)
    decreases len
  {
    if len >= MAX_BUFFER_SIZE {
      var n := MAX_BUFFER_SIZE - blk;
      RangesAligned(dma, off + n, len - n, blk);
      AllButLastCons(Range((dma + off) % TWO32, n), Ranges(dma, off + n, len - n, blk), n);
    }
  }

  /** That is a whole number of blocks when blocks divide 16 MiB, so that no block of an
      entry is cut in two. */
  lemma CutsBetweenBlocks(e: Entry, blk: nat, size: nat)
    requires ValidBlock(blk) && size == MAX_BUFFER_SIZE && Rem(size, blk) == 0
    ensures var rs := Ranges(e.dma, 0, e.length, blk);
            forall i :: 0 <= i < |rs| - 1 ==> rs[i].hi > 0 && Rem(rs[i].hi, blk) == 0
  {
    RangesAligned(e.dma, 0, e.length, blk);
    OneBlockLess(size, blk);
    assert Rem(size - blk, blk) == 0;
  }

  lemma TakeAcross(e: Entry, rest: seq<nat>, total: nat)
    ensures var len := Min(e.length, total);
            var all := Span(e.dma, e.length) + rest;
            all[..Min(total, |all|)] == Span(e.dma, len) + rest[..Min(total - len, |rest|)]
  {
  }

  /** The list describes, in order, exactly the first bytes of the scatterlist. */
  lemma {:induction false} SplitExact(sg: seq<Entry>, total: nat, blk: nat)
    requires ValidBlock(blk)
    ensures Described(Split(sg, total, blk)) == Addresses(sg)[..Min(total, |Addresses(sg)|)]
  {
    if sg != [] && total > 0 {
      var len := Min(sg[0].length, total);
      RangesExact(sg[0].dma, 0, len, blk);
      SplitExact(sg[1..], total - len, blk);
      DescribedAppend(Ranges(sg[0].dma, 0, len, blk), Split(sg[1..], total - len, blk));
      TakeAcross(sg[0], Addresses(sg[1..]), total);
    }
  }

  lemma {:induction false} SplitBounded(sg: seq<Entry>, total: nat, blk: nat)
    requires ValidBlock(blk)
    ensures Bounded(Split(sg, total, blk))
  {
    if sg != [] && total > 0 {
      var len := Min(sg[0].length, total);
      RangesBounded(sg[0].dma, 0, len, blk);
      SplitBounded(sg[1..], total - len, blk);
    }
  }

  /** One entry below the split limit needs one range: what the SHA fast path, whose
      message has room for one, relies on. */
  lemma SingleEntrySingleRange(e: Entry, total: nat, blk: nat)
    requires ValidBlock(blk) && 0 < total <= e.length
    ensures Split([e], total, blk) == [Range(e.dma % TWO32, total)] <==> total < MAX_BUFFER_SIZE
    ensures |Split([e], total, blk)| == 1 <==> total < MAX_BUFFER_SIZE
  {
    assert [e][1..] == [];
    assert Split([e], total, blk) == Ranges(e.dma, 0, total, blk);
    if total >= MAX_BUFFER_SIZE {
      var n := MAX_BUFFER_SIZE - blk;
      assert Ranges(e.dma, n, total - n, blk) != [];
    }
  }

  // ----- what the loop does ------------------------------------------------------

  /** The whole effect of the loop: whether it succeeds, the ranges it writes, in order,
      and how many entries it maps. */
  datatype Plan = Plan(ok: bool, ranges: seq<Range>, mapped: nat)

  /** `room` ranges are let in; `mapOk` says which entries dma_map_sg accepts. */
  function PlanOf(sg: seq<Entry>, total: nat, room: nat, blk: nat, mapOk: seq<bool>): (p: Plan)
    requires ValidBlock(blk) && |mapOk| == |sg|
    ensures p.mapped <= |sg|
  {
    if sg == [] || total == 0 then Plan(true, [], 0)
    else if !mapOk[0] then Plan(false, [], 0)
    else
      var len := Min(sg[0].length, total);
      var rs := Ranges(sg[0].dma, 0, len, blk);
      if |rs| > room then Plan(false, rs[..room], 1)
      else
        var p := PlanOf(sg[1..], total - len, room - |rs|, blk, mapOk[1..]);
        Plan(p.ok, rs + p.ranges, 1 + p.mapped)
  }

  /** The loop succeeds exactly when the list fits its limit and every entry it needs
      maps, and then it writes the whole list; otherwise it writes a first part. */
  lemma {:induction false} PlanExact(sg: seq<Entry>, total: nat, room: nat, blk: nat, mapOk: seq<bool>)
    requires ValidBlock(blk) && |mapOk| == |sg|
    ensures var p := PlanOf(sg, total, room, blk, mapOk);
            && (p.ok <==> |Split(sg, total, blk)| <= room && AllMapped(mapOk, Visited(sg, total)))
            && (p.ok ==> p.ranges == Split(sg, total, blk) && p.mapped == Visited(sg, total))
            && p.ranges <= Split(sg, total, blk)
            && (AllMapped(mapOk, Visited(sg, total)) ==> |p.ranges| == Min(|Split(sg, total, blk)|, room))
  {
    if sg != [] && total > 0 && mapOk[0] {
      var len := Min(sg[0].length, total);
      PlanExact(sg[1..], total - len, Max(0, room - |Ranges(sg[0].dma, 0, len, blk)|), blk, mapOk[1..]);
      MappedTail(mapOk, Visited(sg, total));
    }
  }

  lemma MappedTail(mapOk: seq<bool>, n: nat)
    requires 0 < n <= |mapOk| && mapOk[0]
    ensures AllMapped(mapOk, n) <==> AllMapped(mapOk[1..], n - 1)
  {
    assert forall k :: 0 <= k < n - 1 ==> mapOk[1..][k] == mapOk[k + 1];
    assert forall k :: 0 < k < n ==> mapOk[k] == mapOk[1..][k - 1];
  }

  // ----- the callers' destinations ------------------------------------------------

  /** The SHA fast path: one entry, a destination for one range and a limit of one, which
      the index test lets two pass. The second is written exactly from 16 MiB on, which
      is longer than any request. */
  lemma ShaCallStaysInsideIff(e: Entry, total: nat, blk: nat, mapped: bool)
    requires ValidBlock(blk) && 0 < total <= e.length
    ensures |PlanOf([e], total, 2, blk, [mapped]).ranges| <= 1 <==> total < MAX_BUFFER_SIZE || !mapped
  {
    PlanExact([e], total, 2, blk, [mapped]);
    SingleEntrySingleRange(e, total, blk);
  }

  /** CMAC: up to two entries, again a destination for one range, and a limit of two.
      The writes stay inside exactly when one entry holds all the blocks and they are
      below 16 MiB. */
  lemma CmacCallStaysInsideIff(a: Entry, b: Entry, total: nat, blk: nat)
    requires ValidBlock(blk) && 0 < total <= a.length + b.length
    ensures |PlanOf([a, b], total, 3, blk, [true, true]).ranges| <= 1
            <==> total < MAX_BUFFER_SIZE && (a.length == 0 || total <= a.length)
  {
    assert [a, b][1..] == [b];
    var len := Min(a.length, total);
    assert Split([a, b], total, blk) == Ranges(a.dma, 0, len, blk) + Split([b], total - len, blk);
    if len > 0 {
      OneRange(a, len, blk);
    }
    if len < total {
      OneRange(b, total - len, blk);
    }
    PlanExact([a, b], total, 3, blk, [true, true]);
  }

  /** Bytes of one entry need at least one range, and one is enough below 16 MiB only. */
  lemma OneRange(e: Entry, len: nat, blk: nat)
    requires ValidBlock(blk) && 0 < len <= e.length
    ensures Split([e], len, blk) == Ranges(e.dma, 0, len, blk) != []
    ensures |Ranges(e.dma, 0, len, blk)| == 1 <==> len < MAX_BUFFER_SIZE
  {
    SingleEntrySingleRange(e, len, blk);
  }

  // ----- the loop --------------------------------------------------------------

  datatype Mapping = Mapping(mapped: seq<nat>, unmapped: seq<nat>)

  function UpTo(n: nat): seq<nat> { seq(n, i requires 0 <= i => i) }

  predicate AllMapped(mapOk: seq<bool>, n: nat)
    requires n <= |mapOk|
  {
    forall k :: 0 <= k < n ==> mapOk[k]
  }

  /** `prepare_ivc_linked_list`. The index test lets `maxLlLen` + 1 ranges in. The array
      has to hold what is written and no more: the writes stay inside if and only if it
      does, since exactly the first places are written, one for each range. */
  method PrepareLinkedList(sg: seq<Entry>, total: nat, maxLlLen: nat, blk: nat, srcAddr: array<Range>,
                           numLists: nat, mapOk: seq<bool>)
    returns (ok: bool, newLists: nat, numMapped: nat, log: Mapping)
    requires ValidBlock(blk) && |mapOk| == |sg|
    requires srcAddr.Length >= |PlanOf(sg, total, maxLlLen + 1, blk, mapOk).ranges|
    modifies srcAddr
    ensures var plan := PlanOf(sg, total, maxLlLen + 1, blk, mapOk);
            && ok == plan.ok
            && srcAddr[..] == plan.ranges + old(srcAddr[..])[|plan.ranges|..]
            && newLists == (if ok then numLists + |plan.ranges| else numLists)
            && numMapped == (if ok then plan.mapped else 0)
            && log == Mapping(UpTo(plan.mapped), if ok then [] else UpTo(plan.mapped))
    ensures ok <==> |Split(sg, total, blk)| <= maxLlLen + 1 && AllMapped(mapOk, Visited(sg, total))
    ensures ok ==> srcAddr[..newLists - numLists] == Split(sg, total, blk) && numMapped == Visited(sg, total)
  {
    var i, sgCount, mapped;
    PlanExact(sg, total, maxLlLen + 1, blk, mapOk);
    ok, i, sgCount, mapped := MapAndSplit(sg, total, maxLlLen, blk, srcAddr, mapOk);
    if ok {
      return true, numLists + i, sgCount, Mapping(mapped, []);
    }
    var unmapped := Unmap(|sg|, sgCount);
    return false, numLists, 0, Mapping(mapped, unmapped);
  }

  /** What is still to do, as part of the whole plan: the ranges written so far are the
      first i, and k entries have been mapped. */
  ghost predicate Doing(plan: Plan, sg: seq<Entry>, k: nat, total: nat, room: int, blk: nat, mapOk: seq<bool>, written: seq<Range>)
    requires ValidBlock(blk) && |mapOk| == |sg| && k <= |sg|
  {
    && room >= 0
    && var rest := PlanOf(sg[k..], total, room, blk, mapOk[k..]);
       plan == Plan(rest.ok, written + rest.ranges, k + rest.mapped)
  }

  /** One turn of the loop, as the plan sees it. */
  lemma NextEntry(plan: Plan, sg: seq<Entry>, k: nat, total: nat, room: nat, blk: nat, mapOk: seq<bool>, written: seq<Range>)
    requires ValidBlock(blk) && |mapOk| == |sg| && k < |sg| && total > 0
    requires Doing(plan, sg, k, total, room, blk, mapOk, written)
    ensures !mapOk[k] ==> plan == Plan(false, written, k)
    ensures var len := Min(sg[k].length, total);
            var rs := Ranges(sg[k].dma, 0, len, blk);
            mapOk[k] ==>
              if |rs| > room then plan == Plan(false, written + rs[..room], k + 1)
              else Doing(plan, sg, k + 1, total - len, room - |rs|, blk, mapOk, written + rs)
    ensures mapOk[k] ==> var rs := Ranges(sg[k].dma, 0, Min(sg[k].length, total), blk);
                         |written| + Min(|rs|, room) <= |plan.ranges|
  {
    assert sg[k..][0] == sg[k] && sg[k..][1..] == sg[k + 1..] && mapOk[k..][0] == mapOk[k] && mapOk[k..][1..] == mapOk[k + 1..];
    var len := Min(sg[k].length, total);
    var rs := Ranges(sg[k].dma, 0, len, blk);
    if mapOk[k] && |rs| <= room {
      var p := PlanOf(sg[k + 1..], total - len, room - |rs|, blk, mapOk[k + 1..]);
      Regroup(written, rs, p.ranges);
    }
  }

  /** The loop over the entries; `sgCount` entries, in order, have been mapped. */
  method MapAndSplit(sg: seq<Entry>, total: nat, maxLlLen: nat, blk: nat, srcAddr: array<Range>, mapOk: seq<bool>)
    returns (ok: bool, i: nat, sgCount: nat, mapped: seq<nat>)
    requires ValidBlock(blk) && |mapOk| == |sg|
    requires srcAddr.Length >= |PlanOf(sg, total, maxLlLen + 1, blk, mapOk).ranges|
    modifies srcAddr
    ensures i <= srcAddr.Length
    ensures Plan(ok, srcAddr[..i], sgCount) == PlanOf(sg, total, maxLlLen + 1, blk, mapOk)
    ensures srcAddr[..][i..] == old(srcAddr[..])[i..] && mapped == UpTo(sgCount)
  {
    ghost var plan := PlanOf(sg, total, maxLlLen + 1, blk, mapOk);
    ghost var orig := srcAddr[..];
    var totalLen := total;
    i, sgCount, mapped := 0, 0, [];
    assert sg[0..] == sg && mapOk[0..] == mapOk && [] + plan.ranges == plan.ranges;
    while sgCount < |sg| && totalLen > 0
      invariant sgCount <= |sg| && i <= srcAddr.Length && mapped == UpTo(sgCount)
      invariant Doing(plan, sg, sgCount, totalLen, maxLlLen + 1 - i, blk, mapOk, srcAddr[..i])
      invariant srcAddr[..][i..] == orig[i..]
    {
      if !mapOk[sgCount] {
        NextEntry(plan, sg, sgCount, totalLen, maxLlLen + 1 - i, blk, mapOk, srcAddr[..i]);
        return false, i, sgCount, mapped;
      }
      mapped := mapped + [sgCount];
      ghost var before, start := srcAddr[..], i;
      ok, i, totalLen := TakeEntry(plan, sg, sgCount, totalLen, maxLlLen, blk, srcAddr, i, mapOk);
      RestStays(before, orig, start, i);
      sgCount := sgCount + 1;
      if !ok {
        return false, i, sgCount, mapped;
      }
    }
    ok := true;
  }

  /** One mapped entry of the plan. */
  method TakeEntry(ghost plan: Plan, sg: seq<Entry>, k: nat, total: nat, maxLlLen: nat, blk: nat,
                   srcAddr: array<Range>, start: nat, mapOk: seq<bool>)
    returns (ok: bool, i: nat, totalLen: nat)
    requires ValidBlock(blk) && |mapOk| == |sg| && k < |sg| && mapOk[k] && total > 0
    requires start <= srcAddr.Length && |plan.ranges| <= srcAddr.Length
    requires Doing(plan, sg, k, total, maxLlLen + 1 - start, blk, mapOk, srcAddr[..start])
    modifies srcAddr
    ensures start <= i <= srcAddr.Length && srcAddr[..][i..] == old(srcAddr[..])[i..]
    ensures ok ==> Doing(plan, sg, k + 1, totalLen, maxLlLen + 1 - i, blk, mapOk, srcAddr[..i])
    ensures !ok ==> plan == Plan(false, srcAddr[..i], k + 1)
  {
    NextEntry(plan, sg, k, total, maxLlLen + 1 - start, blk, mapOk, srcAddr[..start]);
    var e := sg[k];
    var len := Min(e.length, total);
    ok, i, totalLen := SplitEntry(e.dma % TWO32, e.dma, len, total, maxLlLen, blk, srcAddr, start);
    ghost var rs := Ranges(e.dma, 0, len, blk);
    assert ok ==> rs[..i - start] == rs;
  }

  /** The body of the loop for one entry: full-sized ranges while the length reaches
      the limit, then what is left; as many of them as the index test lets in. */
  method SplitEntry(addr: nat, ghost dma: nat, length: nat, total: nat, maxLlLen: nat, blk: nat,
                    srcAddr: array<Range>, start: nat)
    returns (ok: bool, i: nat, totalLen: nat)
    requires ValidBlock(blk) && addr == dma % TWO32 && length <= total
    requires start <= maxLlLen + 1
    requires srcAddr.Length >= start + Min(|Ranges(dma, 0, length, blk)|, maxLlLen + 1 - start)
    modifies srcAddr
    ensures var rs := Ranges(dma, 0, length, blk);
            && i == start + Min(|rs|, maxLlLen + 1 - start) && (ok <==> start + |rs| <= maxLlLen + 1)
            && srcAddr[..i] == old(srcAddr[..start]) + rs[..i - start]
            && srcAddr[..][i..] == old(srcAddr[..])[i..]
    ensures ok ==> totalLen == total - length
  {
    ghost var all := Ranges(dma, 0, length, blk);
    ghost var head, orig := srcAddr[..start], srcAddr[..];
    var len: nat, addrOffset: nat := length, 0;
    i, totalLen := start, total;
    while len >= MAX_BUFFER_SIZE
      invariant start <= i <= maxLlLen + 1 && i <= srcAddr.Length
      invariant len <= totalLen && totalLen - len == total - length
      invariant srcAddr[..i] + Ranges(dma, addrOffset, len, blk) == head + all
      invariant srcAddr[..][i..] == orig[i..]
      decreases len
    {
      var processLen := MAX_BUFFER_SIZE - blk;
      var r := Range((addr + addrOffset) % TWO32, processLen);
      ghost var rest := Ranges(dma, addrOffset + processLen, len - processLen, blk);
      assert Ranges(dma, addrOffset, len, blk) == [r] + rest;
      FirstWritten(srcAddr[..i], [r] + rest, head, all);
      if i > maxLlLen {
        return false, i, totalLen;
      }
      i := WriteNext(srcAddr, i, r, rest, orig);
      addrOffset := addrOffset + processLen;
      totalLen := totalLen - processLen;
      len := len - processLen;
    }
    if len > 0 {
      var r := Range((addr + addrOffset) % TWO32, len);
      assert Ranges(dma, addrOffset, len, blk) == [r] + [];
      FirstWritten(srcAddr[..i], [r] + [], head, all);
      if i > maxLlLen {
        return false, i, totalLen;
      }
      i := WriteNext(srcAddr, i, r, [], orig);
    }
    FirstWritten(srcAddr[..i], [], head, all);
    totalLen := totalLen - len;
    ok := true;
  }

  /** Written and unwritten ranges are the head and the first part of all ranges. */
  lemma FirstWritten(written: seq<Range>, rest: seq<Range>, head: seq<Range>, all: seq<Range>)
    requires written + rest == head + all && |head| <= |written|
    ensures |written| + |rest| == |head| + |all| && written == head + all[..|written| - |head|]
  {
    assert written == (written + rest)[..|written|];
  }

  /** One range moves from those to be written to those written. */
  method WriteNext(srcAddr: array<Range>, at: nat, r: Range, ghost rest: seq<Range>, ghost orig: seq<Range>) returns (i: nat)
    requires at < srcAddr.Length == |orig| && srcAddr[..][at..] == orig[at..]
    modifies srcAddr
    ensures i == at + 1 && srcAddr[..i] + rest == old(srcAddr[..at]) + ([r] + rest) && srcAddr[..][i..] == orig[i..]
  {
    ghost var before := srcAddr[..];
    RestStays(before, orig, at, at + 1);
    srcAddr[at] := r;
    i := at + 1;
    assert srcAddr[..] == before[at := r];
    assert srcAddr[..i] == before[..at] + [r];
    Regroup(before[..at], [r], rest);
  }

  /** The error exit: unmap the first `count` entries. */
  method Unmap(entries: nat, count: nat) returns (unmapped: seq<nat>)
    requires count <= entries
    ensures unmapped == UpTo(count)
  {
    unmapped := [];
    var k, sgCount := 0, count;
    while k < entries && sgCount > 0
      invariant k + sgCount == count && unmapped == UpTo(k)
    {
      sgCount := sgCount - 1;
      unmapped := unmapped + [k];
      k := k + 1;
    }
  }
}
