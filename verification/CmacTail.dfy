/** AES-CMAC requests: which bytes go to the engine as whole blocks and which as the
    last block, and when a chain of requests is the CMAC of the whole message. */
module CmacTail {
  import opened Bytes

  const BLOCK: nat := 16
  /** TEGRA_VIRTUAL_SE_MAX_SUPPORTED_BUFLEN */
  const MAX_BUFLEN: nat := 0xFF_FFFF

  /** How the last request of a message is divided: whole blocks, then the last one. */
  method SplitLast(nbytes: nat) returns (blocks: nat, last: nat)
    ensures blocks * BLOCK + last == nbytes && last <= BLOCK
    ensures nbytes > 0 <==> last > 0
    ensures blocks == if nbytes == 0 then 0 else BlockCount(nbytes) - 1
  {
    blocks := nbytes / BLOCK;
    if nbytes % BLOCK != 0 || blocks == 0 {
      last := nbytes % BLOCK;
    } else {
      blocks := blocks - 1;
      last := BLOCK;
    }
  }

  /** `cmac_op`'s segment loop. The segments are whatever pieces the mapping iterator
      hands out; only the final `last` bytes are copied, possibly from several. */
  method GatherTail(segments: seq<seq<byte>>, nbytes: nat, last: nat, buffer: array<byte>)
    requires last <= nbytes <= |Flatten(segments)| && last <= buffer.Length
    modifies buffer
    ensures buffer[..last] == Flatten(segments)[nbytes - last..nbytes]
    ensures buffer[..][last..] == old(buffer[..])[last..]
  {
    ghost var orig := buffer[..];
    ghost var m := Flatten(segments)[..nbytes];
    var totalLen: nat, tempLen: nat, tempBuffer: nat, k: nat := 0, last, 0, 0;
    assert segments[0..] == segments;
    while k < |segments| && totalLen < nbytes
      invariant NextAre(segments, k, m, totalLen)
      invariant Gathered(buffer[..], m, last, totalLen, tempLen, tempBuffer)
      invariant buffer[..][last..] == orig[last..]
    {
      var seg := segments[k];
      NextSegment(segments, k, m, totalLen);
      var len := Min(|seg|, nbytes - totalLen);
      tempLen, tempBuffer := TakeTail(seg[..len], nbytes, totalLen, tempLen, tempBuffer, buffer, m, last);
      totalLen := totalLen + len;
      k := k + 1;
    }
    NoneLeft(segments, k, m, totalLen);
  }

  /** After `total` bytes of m, the part of its last `last` bytes seen so far is in
      the buffer. */
  ghost predicate Gathered(buffer: seq<byte>, m: seq<byte>, last: nat, total: nat, tempLen: nat, tempBuffer: nat) {
    && last <= |m| && last <= |buffer| && total <= |m|
    && tempLen + tempBuffer == last && tempLen == Min(last, |m| - total)
    && buffer[..tempBuffer] == m[|m| - last..|m| - last + tempBuffer]
  }

  method TakeTail(piece: seq<byte>, nbytes: nat, totalLen: nat, tempLen: nat, tempBuffer: nat, buffer: array<byte>,
                  ghost m: seq<byte>, ghost last: nat)
    returns (newTempLen: nat, newTempBuffer: nat)
    requires |m| == nbytes && totalLen + |piece| <= nbytes && piece == m[totalLen..totalLen + |piece|]
    requires Gathered(buffer[..], m, last, totalLen, tempLen, tempBuffer)
    modifies buffer
    ensures Gathered(buffer[..], m, last, totalLen + |piece|, newTempLen, newTempBuffer)
    ensures buffer[..][last..] == old(buffer[..])[last..]
  {
    ghost var before := buffer[..];
    newTempLen, newTempBuffer := tempLen, tempBuffer;
    if nbytes - (totalLen + |piece|) <= tempLen {
      var bytesToCopy := tempLen - (nbytes - (totalLen + |piece|));
      ghost var from, at := nbytes - last, nbytes - last + tempBuffer;
      CopyEnd(piece, bytesToCopy, buffer, tempBuffer);
      Slices(m, totalLen, from, at, at + bytesToCopy);
      newTempLen := tempLen - bytesToCopy;
      newTempBuffer := tempBuffer + bytesToCopy;
      RestStays(buffer[..], before, newTempBuffer, last);
    }
  }

  /** The end of one slice, behind another. */
  lemma Slices(m: seq<byte>, start: nat, from: nat, at: nat, end: nat)
    requires start <= at <= end <= |m| && from <= at
    ensures m[start..end][at - start..] == m[at..end]
    ensures m[from..at] + m[at..end] == m[from..end]
  {
  }

  /** memcpy of the last n bytes of a segment into the buffer. */
  method CopyEnd(seg: seq<byte>, n: nat, buffer: array<byte>, at: nat)
    requires n <= |seg| && at + n <= buffer.Length
    modifies buffer
    ensures buffer[..][..at + n] == old(buffer[..])[..at] + seg[|seg| - n..]
    ensures buffer[..][at + n..] == old(buffer[..])[at + n..]
  {
    forall i | 0 <= i < n {
      buffer[at + i] := seg[|seg| - n + i];
    }
  }

  /** What follows in the message starts with segment k. */
  ghost predicate NextAre(segments: seq<seq<byte>>, k: nat, m: seq<byte>, at: nat) {
    k <= |segments| && at <= |m| && m[at..] <= Flatten(segments[k..])
  }

  lemma NoneLeft(segments: seq<seq<byte>>, k: nat, m: seq<byte>, at: nat)
    requires NextAre(segments, k, m, at) && (k == |segments| || at == |m|)
    ensures at == |m|
  {
    assert k == |segments| ==> segments[k..] == [];
  }

  /** The segment at hand starts with the next bytes of the message. */
  lemma NextSegment(segments: seq<seq<byte>>, k: nat, m: seq<byte>, at: nat)
    requires k < |segments| && at < |m| && NextAre(segments, k, m, at)
    ensures var len := Min(|segments[k]|, |m| - at);
            && segments[k][..len] == m[at..at + len]
            && NextAre(segments, k + 1, m, at + len)
  {
  }

  datatype Result<T> = Ok(value: T) | Einval

  /** `cmac_sv_op`'s tail: one copy at the block offset, after the size check. */
  method CopyTail(src: seq<byte>, nbytes: nat) returns (r: Result<seq<byte>>)
    requires nbytes <= |src|
    ensures r.Einval? <==> nbytes == 0 || nbytes > MAX_BUFLEN
    ensures r.Ok? ==> 1 <= |r.value| <= BLOCK && (nbytes - |r.value|) % BLOCK == 0
    ensures r.Ok? ==> r.value == src[nbytes - |r.value|..nbytes]
  {
    if nbytes == 0 || nbytes > MAX_BUFLEN {
      return Einval;
    }
    var blocks, last := SplitLast(nbytes);
    r := Ok(src[blocks * BLOCK..blocks * BLOCK + last]);
  }

  /** Both ways of taking the last block give the same bytes, however the message is
      cut into segments. */
  method TailsAgree(segments: seq<seq<byte>>, nbytes: nat) returns (gathered: seq<byte>, copied: seq<byte>)
    requires 0 < nbytes <= MAX_BUFLEN && nbytes <= |Flatten(segments)|
    ensures gathered == copied == LastBlock(Flatten(segments)[..nbytes])
  {
    var all := Flatten(segments);
    var blocks, last := SplitLast(nbytes);
    var buffer := new byte[BLOCK];
    GatherTail(segments, nbytes, last, buffer);
    gathered := buffer[..last];
    var r := CopyTail(all, nbytes);
    copied := r.value;
    assert |copied| == last;
    LastBlockIs(all[..nbytes], last);
  }

  // ----- the MAC --------------------------------------------------------------

  /** Section 2.4 of RFC 4493: the message is M_1 .. M_n with n = ceil(len / 16), n = 1
      for the empty message; the last block M_n may be short. */
  function BlockCount(len: nat): nat {
    if len == 0 then 1 else (len + BLOCK - 1) / BLOCK
  }

  function LastBlock(m: seq<byte>): seq<byte> {
    m[(BlockCount(|m|) - 1) * BLOCK..]
  }

  function LeadingBlocks(m: seq<byte>): seq<byte> {
    m[..(BlockCount(|m|) - 1) * BLOCK]
  }

  lemma LastBlockIs(m: seq<byte>, last: nat)
    requires m != [] && 1 <= last <= BLOCK && last <= |m| && (|m| - last) % BLOCK == 0
    ensures LastBlock(m) == m[|m| - last..] && LeadingBlocks(m) == m[..|m| - last]
  {
  }

  /** What the engine is sent for one request: whole blocks and a last block. */
  function Blocks(data: seq<byte>, isLast: bool): nat {
    if isLast && data != [] then BlockCount(|data|) - 1 else |data| / BLOCK
  }

  /** The whole blocks of a chain of updates and one closing request, in order. */
  function ChainBlocks(updates: seq<seq<byte>>, final: seq<byte>): seq<byte> {
    if updates == [] then final[..Blocks(final, true) * BLOCK]
    else updates[0][..Blocks(updates[0], false) * BLOCK] + ChainBlocks(updates[1..], final)
  }

  function ChainTail(final: seq<byte>): seq<byte> {
    final[Blocks(final, true) * BLOCK..]
  }

  lemma WholeBlocksCons(updates: seq<seq<byte>>)
    requires updates != []
    ensures WholeBlocks(updates) <==> |updates[0]| % BLOCK == 0 && WholeBlocks(updates[1..])
  {
  }

  /** What a request that is not the last keeps of its data. */
  lemma UpdateKeeps(u: seq<byte>)
    ensures Blocks(u, false) * BLOCK <= |u|
    ensures |u| % BLOCK == 0 <==> u[..Blocks(u, false) * BLOCK] == u
    ensures |u| % BLOCK == 0 <==> |u[..Blocks(u, false) * BLOCK]| == |u|
  {
  }

  lemma {:induction false} ChainKeepsAll(updates: seq<seq<byte>>, final: seq<byte>)
    ensures |ChainBlocks(updates, final) + ChainTail(final)| <= |Flatten(updates) + final|
    ensures |ChainBlocks(updates, final) + ChainTail(final)| == |Flatten(updates) + final| <==> WholeBlocks(updates)
    ensures WholeBlocks(updates) ==> ChainBlocks(updates, final) + ChainTail(final) == Flatten(updates) + final
  {
    if updates == [] {
      assert ChainBlocks(updates, final) + ChainTail(final) == final;
      assert Flatten(updates) + final == final;
    } else {
      var u, rest := updates[0], updates[1..];
      var sent := u[..Blocks(u, false) * BLOCK];
      ChainKeepsAll(rest, final);
      WholeBlocksCons(updates);
      UpdateKeeps(u);
      Regroup(sent, ChainBlocks(rest, final), ChainTail(final));
      Regroup(u, Flatten(rest), final);
    }
  }

  lemma RemainderOfSum(a: nat, b: nat)
    requires a % BLOCK == 0
    ensures (a + b) % BLOCK == b % BLOCK
  {
  }

  lemma {:induction false} FlattenWhole(updates: seq<seq<byte>>)
    requires WholeBlocks(updates)
    ensures |Flatten(updates)| % BLOCK == 0
  {
    if updates != [] {
      WholeBlocksCons(updates);
      FlattenWhole(updates[1..]);
      RemainderOfSum(|updates[0]|, |Flatten(updates[1..])|);
    }
  }

  lemma TailFacts(final: seq<byte>)
    ensures final == [] <==> ChainTail(final) == []
    ensures |ChainTail(final)| <= BLOCK && |ChainTail(final)| <= |final|
    ensures (|final| - |ChainTail(final)|) % BLOCK == 0
  {
  }

  lemma Partition(m: seq<byte>)
    ensures |LeadingBlocks(m)| + |LastBlock(m)| == |m|
    ensures LastBlock(m) == [] <==> m == []
  {
  }

  lemma ChainIsOneShot(updates: seq<seq<byte>>, final: seq<byte>)
    requires WholeBlocks(updates) && final != []
    ensures var m := Flatten(updates) + final;
            ChainBlocks(updates, final) == LeadingBlocks(m) && ChainTail(final) == LastBlock(m)
  {
    var m := Flatten(updates) + final;
    var blocks, tail := ChainBlocks(updates, final), ChainTail(final);
    ChainKeepsAll(updates, final);
    FlattenWhole(updates);
    TailFacts(final);
    RemainderOfSum(|Flatten(updates)|, |final| - |tail|);
    LastBlockIs(m, |tail|);
    assert blocks == (blocks + tail)[..|blocks|] && tail == (blocks + tail)[|blocks|..];
  }

  /** A chain of requests hands the engine exactly the blocks of the whole message's
      CMAC if and only if every update is a whole number of blocks and the closing
      request brings data (or there is none at all). */
  lemma ChainIsOneShotIff(updates: seq<seq<byte>>, final: seq<byte>)
    ensures var m := Flatten(updates) + final;
            (ChainBlocks(updates, final) == LeadingBlocks(m) && ChainTail(final) == LastBlock(m))
            <==> WholeBlocks(updates) && (final != [] || m == [])
  {
    var m := Flatten(updates) + final;
    ChainKeepsAll(updates, final);
    Partition(m);
    TailFacts(final);
    if WholeBlocks(updates) && final != [] {
      ChainIsOneShot(updates, final);
    }
  }

  /** Chaining and closing of the MAC, uninterpreted. */
  datatype Mac<!S, !T> = Mac(init: S, chain: (S, seq<byte>) -> S, close: (S, seq<byte>) -> T)

  function Fold<S, T>(mac: Mac<S, T>, s: S, blocks: seq<byte>): S
    decreases |blocks|
  {
    if |blocks| < BLOCK then s else Fold(mac, mac.chain(s, blocks[..BLOCK]), blocks[BLOCK..])
  }

  /** The engine's chaining register over the requests: original IV for the first,
      the register left by the previous one after that. */
  function RunChain<S, T>(mac: Mac<S, T>, reg: S, updates: seq<seq<byte>>, final: seq<byte>): T {
    if updates == [] then mac.close(Fold(mac, reg, final[..Blocks(final, true) * BLOCK]), ChainTail(final))
    else RunChain(mac, Fold(mac, reg, updates[0][..Blocks(updates[0], false) * BLOCK]), updates[1..], final)
  }

  lemma {:induction false} FoldSplit<S, T>(mac: Mac<S, T>, s: S, a: seq<byte>, b: seq<byte>)
    requires |a| % BLOCK == 0
    ensures Fold(mac, s, a + b) == Fold(mac, Fold(mac, s, a), b)
    decreases |a|
  {
    if a == [] {
      assert a + b == b;
    } else {
      assert (a + b)[..BLOCK] == a[..BLOCK] && (a + b)[BLOCK..] == a[BLOCK..] + b;
      FoldSplit(mac, mac.chain(s, a[..BLOCK]), a[BLOCK..], b);
    }
  }

  lemma {:induction false} RunChainFolds<S, T>(mac: Mac<S, T>, reg: S, updates: seq<seq<byte>>, final: seq<byte>)
    ensures RunChain(mac, reg, updates, final) == mac.close(Fold(mac, reg, ChainBlocks(updates, final)), ChainTail(final))
    decreases |updates|
  {
    if updates != [] {
      var sent := updates[0][..Blocks(updates[0], false) * BLOCK];
      FoldSplit(mac, reg, sent, ChainBlocks(updates[1..], final));
      RunChainFolds(mac, Fold(mac, reg, sent), updates[1..], final);
    }
  }

  /** Chaining and closing by concatenation: shows what a MAC has been fed. */
  function Concat(): Mac<seq<byte>, seq<byte>> {
    Mac([], (s: seq<byte>, b: seq<byte>) => s + b, (s: seq<byte>, b: seq<byte>) => s + b)
  }

  lemma {:induction false} FoldConcat(s: seq<byte>, blocks: seq<byte>)
    ensures Fold(Concat(), s, blocks) == s + blocks[..|blocks| / BLOCK * BLOCK]
    decreases |blocks|
  {
    if |blocks| >= BLOCK {
      var rest := blocks[BLOCK..];
      FoldConcat(s + blocks[..BLOCK], rest);
      var n := |rest| / BLOCK * BLOCK;
      assert n + BLOCK == |blocks| / BLOCK * BLOCK;
      assert blocks[..BLOCK] + rest[..n] == blocks[..n + BLOCK];
    }
  }

  lemma ChainBlocksWhole(updates: seq<seq<byte>>, final: seq<byte>)
    requires WholeBlocks(updates)
    ensures |ChainBlocks(updates, final)| % BLOCK == 0
  {
    ChainKeepsAll(updates, final);
    FlattenWhole(updates);
    TailFacts(final);
    RemainderOfSum(|Flatten(updates)|, |final| - |ChainTail(final)|);
  }

  /** A chain of updates of whole blocks and a closing request feeds the MAC the whole
      message, every byte once and in order. */
  lemma ChainFeedsMessage(updates: seq<seq<byte>>, final: seq<byte>)
    requires WholeBlocks(updates)
    ensures RunChain(Concat(), [], updates, final) == Flatten(updates) + final
  {
    var blocks := ChainBlocks(updates, final);
    RunChainFolds(Concat(), [], updates, final);
    FoldConcat([], blocks);
    ChainBlocksWhole(updates, final);
    assert [] + blocks[..|blocks| / BLOCK * BLOCK] == blocks;
    ChainKeepsAll(updates, final);
  }

  /** Streaming refines the one-shot MAC. */
  lemma StreamingRefinesOneShot<S, T>(mac: Mac<S, T>, updates: seq<seq<byte>>, final: seq<byte>)
    requires WholeBlocks(updates) && (final != [] || Flatten(updates) == [])
    ensures var m := Flatten(updates) + final;
            RunChain(mac, mac.init, updates, final) == mac.close(Fold(mac, mac.init, LeadingBlocks(m)), LastBlock(m))
  {
    RunChainFolds(mac, mac.init, updates, final);
    ChainIsOneShotIff(updates, final);
  }
}
