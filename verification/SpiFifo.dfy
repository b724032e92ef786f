/** The SPI slave's FIFO path: packing client bytes into 32-bit FIFO words, taking
    received words apart again, and the byte accounting of a transfer. */
module SpiFifo {
  import opened Bytes

  const FIFO_DEPTH: nat := 64

  // ----- bytes and words ----------------------------------------------------------

  /** `b << (i * 8)` */
  function Shifted(b: nat, i: nat): nat {
    if i == 0 then b else 256 * Shifted(b, i - 1)
  }

  /** `(x >> (i * 8)) & 0xff` */
  function ByteAt(x: nat, i: nat): byte {
    if i == 0 then (x % 256) as byte else ByteAt(x / 256, i - 1)
  }

  /** The bytes of a FIFO word, the first in the lowest place. */
  function PackWord(bs: seq<byte>): (x: nat)
    ensures x < Shifted(1, |bs|)
  {
    if bs == [] then 0 else bs[0] as nat + 256 * PackWord(bs[1..])
  }

  /** The lowest n bytes of a FIFO word. */
  function UnpackWord(x: nat, n: nat): (bs: seq<byte>)
    ensures |bs| == n
  {
    if n == 0 then [] else [(x % 256) as byte] + UnpackWord(x / 256, n - 1)
  }

  /** Or-ing a shifted byte above the bytes already there appends it; the word so far
      is below the byte's place, so the bits do not meet and the result is a sum. */
  lemma {:induction false} PackPush(bs: seq<byte>, b: byte)
    ensures PackWord(bs + [b]) == PackWord(bs) + Shifted(b as nat, |bs|)
  {
    if bs == [] {
      assert [] + [b] == [b] && [b][1..] == [];
    } else {
      assert (bs + [b])[1..] == bs[1..] + [b];
      PackPush(bs[1..], b);
    }
  }

  lemma {:induction false} UnpackPush(x: nat, n: nat)
    ensures UnpackWord(x, n + 1) == UnpackWord(x, n) + [ByteAt(x, n)]
    decreases n
  {
    if n == 0 {
      assert UnpackWord(x, 0 + 1) == [(x % 256) as byte] + UnpackWord(x / 256, 0);
    } else {
      UnpackPush(x / 256, n - 1);
    }
  }

  /** Byte order: the first client byte is the lowest of the word. */
  lemma LittleEndian(bs: seq<byte>)
    requires |bs| == 4
    ensures PackWord(bs) == bs[0] as nat + 0x100 * bs[1] as nat + 0x1_0000 * bs[2] as nat + 0x100_0000 * bs[3] as nat
  {
    assert bs[1..][1..] == bs[2..] && bs[2..][1..] == bs[3..] && bs[3..][1..] == [];
    assert PackWord(bs[3..]) == bs[3] as nat;
    assert PackWord(bs[2..]) == bs[2] as nat + 0x100 * bs[3] as nat;
    assert PackWord(bs[1..]) == bs[1] as nat + 0x100 * bs[2] as nat + 0x1_0000 * bs[3] as nat;
  }

  lemma LowByte(b: byte, rest: nat)
    ensures (b as nat + 256 * rest) % 256 == b as nat && (b as nat + 256 * rest) / 256 == rest
  {
  }

  lemma {:induction false} WordRoundTrip(bs: seq<byte>)
    ensures UnpackWord(PackWord(bs), |bs|) == bs
    decreases |bs|
  {
    if bs != [] {
      var rest := PackWord(bs[1..]);
      WordRoundTrip(bs[1..]);
      LowByte(bs[0], rest);
      assert bs == [bs[0]] + bs[1..];
    }
  }

  // ----- streams of words ------------------------------------------------------------

  /** The FIFO words of a byte stream, g bytes to a word, the last one perhaps short. */
  function Pack(bs: seq<byte>, g: nat): seq<nat>
    requires 1 <= g <= 4
    decreases |bs|
  {
    if bs == [] then []
    else
      var n := Min(g, |bs|);
      [PackWord(bs[..n])] + Pack(bs[n..], g)
  }

  /** The first n bytes of received words, g bytes from each. */
  function Unpack(words: seq<nat>, g: nat, n: nat): seq<byte>
    requires 1 <= g <= 4
  {
    if words == [] || n == 0 then []
    else
      var m := Min(g, n);
      UnpackWord(words[0], m) + Unpack(words[1..], g, n - m)
  }

  lemma {:induction false} UnpackLength(words: seq<nat>, g: nat, n: nat)
    requires 1 <= g <= 4 && n <= g * |words|
    ensures |Unpack(words, g, n)| == n
  {
    if words != [] && n > 0 {
      assert g * |words| == g + g * |words[1..]|;
      UnpackLength(words[1..], g, n - Min(g, n));
    }
  }

  lemma UnpackCons(x: nat, rest: seq<nat>, g: nat, n: nat)
    requires 1 <= g <= 4 && n > 0
    ensures Unpack([x] + rest, g, n) == UnpackWord(x, Min(g, n)) + Unpack(rest, g, n - Min(g, n))
  {
  }

  /** Reading the words of a byte stream gives the stream. */
  lemma {:induction false} StreamRoundTrip(bs: seq<byte>, g: nat)
    requires 1 <= g <= 4
    ensures Unpack(Pack(bs, g), g, |bs|) == bs
    decreases |bs|
  {
    if bs != [] {
      var n := Min(g, |bs|);
      StreamRoundTrip(bs[n..], g);
      PackFirst(bs, g);
      FirstWordBack(bs, g, Pack(bs[n..], g));
    }
  }

  /** One word more in front of words that give back the rest. */
  lemma FirstWordBack(bs: seq<byte>, g: nat, words: seq<nat>)
    requires 1 <= g <= 4 && bs != [] && Unpack(words, g, |bs| - Min(g, |bs|)) == bs[Min(g, |bs|)..]
    ensures Unpack([PackWord(bs[..Min(g, |bs|)])] + words, g, |bs|) == bs
  {
    var n := Min(g, |bs|);
    WordRoundTrip(bs[..n]);
    UnpackCons(PackWord(bs[..n]), words, g, |bs|);
    assert bs[..n] + bs[n..] == bs;
  }

  lemma OneMore(g: nat, m: nat)
    ensures g * (1 + m) == g + g * m
  {
  }

  lemma PackFirst(bs: seq<byte>, g: nat)
    requires 1 <= g <= 4 && bs != []
    ensures var n := Min(g, |bs|); Pack(bs, g) == [PackWord(bs[..n])] + Pack(bs[n..], g)
  {
  }

  /** One word for every g bytes begun. */
  lemma {:induction false} PackCount(bs: seq<byte>, g: nat)
    requires 1 <= g <= 4
    ensures |bs| <= g * |Pack(bs, g)| < |bs| + g
    decreases |bs|
  {
    if bs != [] {
      var rest := bs[Min(g, |bs|)..];
      PackCount(rest, g);
      PackFirst(bs, g);
      OneMore(g, |Pack(rest, g)|);
    }
  }

  // ----- transfer parameters ------------------------------------------------------------

  datatype Param = Param(bytesPerWord: nat, packed: bool, wordsPer32: nat, dmaWords: nat) {
    predicate Valid() {
      if packed then bytesPerWord in {1, 2} && wordsPer32 * bytesPerWord == 4
      else 1 <= bytesPerWord <= 4 && wordsPer32 == 1
    }
    /** Bytes in one FIFO word. */
    function Group(): (g: nat)
      requires Valid()
      ensures 1 <= g <= 4
    {
      if packed then 4 else bytesPerWord
    }
  }

  /** What `validate_request` checks of the length. */
  predicate ValidLength(p: Param, len: nat, maxBufSize: nat)
    requires p.Valid()
  {
    len > 0 && len % p.bytesPerWord == 0 && len <= maxBufSize && (!p.packed ==> len / p.bytesPerWord <= maxBufSize / 4)
  }

  /** `calculate_curr_xfer_param`: for a valid length every word is transferred, and the
      word count returned is the number of FIFO words the data takes. */
  method CalculateParam(bitsPerWord: nat, forceUnpacked: bool, len: nat, maxBufSize: nat)
    returns (p: Param, totalFifoWords: nat)
    requires 1 <= bitsPerWord <= 32 && len > 0
    ensures p.Valid() && p.bytesPerWord == (bitsPerWord - 1) / 8 + 1 && 8 * (p.bytesPerWord - 1) < bitsPerWord <= 8 * p.bytesPerWord
    ensures p.packed <==> !forceUnpacked && bitsPerWord in {8, 16}
    ensures ValidLength(p, len, maxBufSize) ==> p.dmaWords * p.bytesPerWord == len
    ensures ValidLength(p, len, maxBufSize) ==> len <= p.Group() * totalFifoWords < len + p.Group()
  {
    var bytesPerWord := (bitsPerWord - 1) / 8 + 1;
    if !forceUnpacked && (bitsPerWord == 8 || bitsPerWord == 16) {
      var maxLen := Min(len, maxBufSize);
      p := Param(bytesPerWord, true, 32 / bitsPerWord, maxLen / bytesPerWord);
      totalFifoWords := (maxLen + 3) / 4;
      assert bytesPerWord == 1 || bytesPerWord == 2;
    } else {
      totalFifoWords := UnpackedWords(len, bytesPerWord, maxBufSize);
      p := Param(bytesPerWord, false, 1, totalFifoWords);
    }
  }

  method UnpackedWords(len: nat, bytesPerWord: nat, maxBufSize: nat) returns (maxWord: nat)
    requires len > 0 && bytesPerWord > 0
    ensures len % bytesPerWord == 0 && len / bytesPerWord <= maxBufSize / 4 ==> maxWord * bytesPerWord == len
  {
    maxWord := (len - 1) / bytesPerWord + 1;
    maxWord := Min(maxWord, maxBufSize / 4);
    RoundedUp(len, bytesPerWord);
  }

  lemma RoundedUp(len: nat, b: nat)
    requires len > 0 && b > 0
    ensures len % b == 0 ==> (len - 1) / b + 1 == len / b && len / b * b == len
  {
    DivModFacts(len, b);
    if len % b == 0 {
      var q := len / b;
      assert len - 1 == (q - 1) * b + (b - 1);
      DivModUnique(len - 1, b, q - 1, b - 1);
    }
  }

  // ----- transmit --------------------------------------------------------------------------

  /** One FIFO word from the next n client bytes. */
  method MakeWord(tx: seq<byte>, at: nat, n: nat) returns (x: nat)
    requires at + n <= |tx| && n <= 4
    ensures x == PackWord(tx[at..at + n])
  {
    x := 0;
    for i := 0 to n
      invariant x == PackWord(tx[at..at + i])
    {
      assert tx[at..at + i + 1] == tx[at..at + i] + [tx[at + i]];
      PackPush(tx[at..at + i], tx[at + i]);
      x := x + Shifted(tx[at + i] as nat, i);
    }
  }

  /** The word loop of the transmit side, g bytes to a word. */
  method PackStream(tx: seq<byte>, nbytes: nat, g: nat) returns (words: seq<nat>)
    requires 1 <= g <= 4 && nbytes <= |tx|
    ensures words == Pack(tx[..nbytes], g)
  {
    ghost var all := tx[..nbytes];
    var at := 0;
    words := [];
    assert all[0..] == all;
    while at < nbytes
      invariant at <= nbytes && words + Pack(all[at..], g) == Pack(all, g)
    {
      var n := Min(g, nbytes - at);
      var x := MakeWord(tx, at, n);
      NextSlice(tx, nbytes, at, n);
      Regroup(words, [x], Pack(all[at + n..], g));
      words := words + [x];
      at := at + n;
    }
    assert all[at..] == [];
  }

  /** `fill_tx_fifo_from_client_txbuf`: the words written are the packed form of the
      first `written` words of the client buffer. */
  method FillTxFifo(p: Param, tx: seq<byte>, txEmptyCount: nat) returns (words: seq<nat>, written: nat)
    requires p.Valid() && p.dmaWords * p.bytesPerWord <= |tx|
    ensures written == Min(p.dmaWords, txEmptyCount * p.wordsPer32)
    ensures written * p.bytesPerWord <= |tx| && words == Pack(tx[..written * p.bytesPerWord], p.Group())
  {
    written := Min(txEmptyCount * p.wordsPer32, p.dmaWords);
    MulMonotone(written, p.dmaWords, p.bytesPerWord);
    words := PackStream(tx, written * p.bytesPerWord, p.Group());
  }

  lemma NextSlice(tx: seq<byte>, nbytes: nat, at: nat, n: nat)
    requires at + n <= nbytes <= |tx|
    ensures tx[..nbytes][at..][..n] == tx[at..at + n] && tx[..nbytes][at..][n..] == tx[..nbytes][at + n..]
  {
  }

  lemma MulLess(a: nat, b: nat, c: nat)
    requires b <= a
    ensures (a - b) * c == a * c - b * c
  {
  }

  // ----- receive and accounting ---------------------------------------------------------------

  /** The part of the driver state a transfer moves through. */
  class Transfer {
    const param: Param
    const rxBuf: array<byte>
    var wordsToTransfer: nat
    var remLen: int
    var currRxPos: nat
    var currPos: nat

    ghost predicate Valid()
      reads this
    {
      param.Valid() && currRxPos + wordsToTransfer * param.bytesPerWord <= rxBuf.Length
    }

    /** As `start_transfer_one` and the interrupt leave it: nothing moved yet and the
        controller reporting `words` transferred. */
    constructor (param: Param, len: nat, words: nat)
      requires param.Valid() && words * param.bytesPerWord <= len
      ensures Valid() && fresh(rxBuf) && this.param == param && rxBuf.Length == len
      ensures wordsToTransfer == words && remLen == len && currRxPos == currPos == 0
    {
      this.param := param;
      rxBuf := new byte[len];
      wordsToTransfer, remLen, currRxPos, currPos := words, len, 0, 0;
    }

    /** `fifo_bytes_to_packets` of the received words, limited to the words wanted. */
    method CountPackets(rxFullCount: nat) returns (npackets: nat)
      requires Valid()
      ensures npackets == Min(rxFullCount * param.wordsPer32, wordsToTransfer)
      ensures npackets * param.bytesPerWord <= wordsToTransfer * param.bytesPerWord
      ensures npackets * param.bytesPerWord <= rxFullCount * param.Group()
    {
      npackets := if param.packed then rxFullCount * 4 / param.bytesPerWord else rxFullCount * 4 / 4;
      npackets := Min(npackets, wordsToTransfer);
      MulMonotone(npackets, wordsToTransfer, param.bytesPerWord);
      MulMonotone(npackets, rxFullCount * param.wordsPer32, param.bytesPerWord);
    }

    /** `read_rx_fifo_to_client_rxbuf`: as many words as are there and wanted. */
    method ReadRxFifo(fifo: seq<nat>) returns (recvLen: nat)
      requires Valid()
      modifies this`wordsToTransfer, this`remLen, this`currRxPos, rxBuf
      ensures Valid()
      ensures var npackets := Min(|fifo| * param.wordsPer32, old(wordsToTransfer));
              && recvLen == npackets * param.bytesPerWord
              && wordsToTransfer == old(wordsToTransfer) - npackets
              && remLen == old(remLen) - recvLen && currRxPos == old(currRxPos) + recvLen
      ensures rxBuf[..currRxPos] == old(rxBuf[..currRxPos]) + Unpack(fifo, param.Group(), recvLen)
      ensures rxBuf[currRxPos..] == old(rxBuf[..])[currRxPos..]
    {
      var npackets := CountPackets(|fifo|);
      recvLen := npackets * param.bytesPerWord;
      UnpackLength(fifo, param.Group(), recvLen);
      StoreWords(fifo, recvLen, rxBuf, currRxPos, param.Group());
      MulLess(wordsToTransfer, npackets, param.bytesPerWord);
      wordsToTransfer := wordsToTransfer - npackets;
      remLen := remLen - recvLen;
      currRxPos := currRxPos + recvLen;
    }

    method BookTransmitted()
      modifies this`currPos, this`remLen
      ensures currPos == old(currPos) + wordsToTransfer * param.bytesPerWord && remLen == old(remLen) - currPos
    {
      currPos := currPos + wordsToTransfer * param.bytesPerWord;
      remLen := remLen - currPos;
    }

    /** The accounting of `handle_message` for a fixed-length transfer: what was received
        is read first, then the words still counted are booked as transmitted. */
    method HandleMessage(tx: bool, rx: bool, fifo: seq<nat>)
      requires Valid() && remLen == wordsToTransfer * param.bytesPerWord && currRxPos == currPos == 0
      modifies this, rxBuf
      ensures var words := old(wordsToTransfer);
              var received := if rx then Min(|fifo| * param.wordsPer32, words) else 0;
              && currRxPos == received * param.bytesPerWord
              && (rx ==> rxBuf[..currRxPos] == Unpack(fifo, param.Group(), currRxPos))
              && wordsToTransfer == words - received
              && remLen == (if tx then 0 else old(remLen) - currRxPos)
              && currPos == (if rx then currRxPos else if tx then words * param.bytesPerWord else 0)
      ensures Valid() && rxBuf[currRxPos..] == old(rxBuf[..])[currRxPos..]
    {
      if rx {
        var recvLen := ReadRxFifo(fifo);
        MulLess(old(wordsToTransfer), old(wordsToTransfer) - wordsToTransfer, param.bytesPerWord);
      }
      if tx {
        BookTransmitted();
      }
      if rx {
        currPos := currRxPos;
      }
    }
  }

  /** What the buffer holds and what is still to be stored make up the goal: done bytes
      of n are in place behind `at`, the rest of the buffer is as it was. */
  ghost predicate Storing(buf: seq<byte>, orig: seq<byte>, at: nat, n: nat, done: nat, rest: seq<nat>, g: nat, goal: seq<byte>)
    requires 1 <= g <= 4
  {
    && done <= n && at + n <= |buf| == |orig| && |Unpack(rest, g, n - done)| == n - done
    && buf[..at + done] + Unpack(rest, g, n - done) == orig[..at] + goal
    && buf[at + n..] == orig[at + n..]
  }

  /** Bytes of received words into the client buffer. */
  method StoreWords(fifo: seq<nat>, n: nat, rxBuf: array<byte>, at: nat, g: nat)
    requires 1 <= g <= 4 && |Unpack(fifo, g, n)| == n && at + n <= rxBuf.Length
    modifies rxBuf
    ensures rxBuf[..at + n] == old(rxBuf[..at]) + Unpack(fifo, g, n)
    ensures rxBuf[at + n..] == old(rxBuf[..])[at + n..]
  {
    var count, done := 0, 0;
    ghost var orig, rest := rxBuf[..], fifo;
    ghost var goal := Unpack(fifo, g, n);
    while done < n && count < |fifo|
      invariant count <= |fifo| && rest == fifo[count..] && 0 <= done <= n
      invariant Storing(rxBuf[..], orig, at, n, done, rest, g, goal)
    {
      var m := Min(g, n - done);
      StoreNext(fifo[count], m, rxBuf, at, n, done, orig, rest, g, goal);
      rest := rest[1..];
      done := done + m;
      count := count + 1;
    }
    AllStored(rxBuf[..], orig, at, n, done, rest, g, goal);
  }

  lemma AllStored(buf: seq<byte>, orig: seq<byte>, at: nat, n: nat, done: nat, rest: seq<nat>, g: nat, goal: seq<byte>)
    requires 1 <= g <= 4 && Storing(buf, orig, at, n, done, rest, g, goal) && (rest == [] || done == n)
    ensures done == n && buf[..at + n] == orig[..at] + goal && buf[at + n..] == orig[at + n..]
  {
    assert Unpack(rest, g, n - done) == [];
  }

  /** One received word moves from what is left to what has been stored. */
  method StoreNext(x: nat, m: nat, rxBuf: array<byte>, at: nat, n: nat, done: nat,
                   ghost orig: seq<byte>, ghost rest: seq<nat>, ghost g: nat, ghost goal: seq<byte>)
    requires 1 <= g <= 4 && done < n && m == Min(g, n - done) && rest != [] && rest[0] == x
    requires Storing(rxBuf[..], orig, at, n, done, rest, g, goal)
    modifies rxBuf
    ensures Storing(rxBuf[..], orig, at, n, done + m, rest[1..], g, goal)
  {
    ghost var buf, left := rxBuf[..], Unpack(rest[1..], g, n - done - m);
    assert rest == [x] + rest[1..];
    UnpackCons(x, rest[1..], g, n - done);
    StoreWord(x, m, n - done - m, rxBuf, at + done);
    Regroup(buf[..at + done], UnpackWord(x, m), left);
  }

  method StoreWord(x: nat, m: nat, ghost more: nat, rxBuf: array<byte>, at: nat)
    requires m <= 4 && at + m + more <= rxBuf.Length
    modifies rxBuf
    ensures rxBuf[..][..at + m] == old(rxBuf[..])[..at] + UnpackWord(x, m)
    ensures rxBuf[..][at + m + more..] == old(rxBuf[..])[at + m + more..]
  {
    for i := 0 to m
      invariant rxBuf[..at + i] == old(rxBuf[..at]) + UnpackWord(x, i)
      invariant rxBuf[at + m + more..] == old(rxBuf[at + m + more..])
    {
      rxBuf[at + i] := ByteAt(x, i);
      UnpackPush(x, i);
      assert rxBuf[..at + i + 1] == rxBuf[..at + i] + [ByteAt(x, i)];
    }
  }

  // ----- whole transfers ------------------------------------------------------------------------

  /** What a message's actual_length grows by for one fixed-length transfer. */
  function Growth(len: nat, remLen: int): int {
    len - remLen
  }

  /** A transfer looped back word by word: the client gets its own bytes, whether the
      words are packed or not, for every length that is valid and fits the FIFO. */
  method Loopback(bitsPerWord: nat, forceUnpacked: bool, tx: seq<byte>, maxBufSize: nat)
    returns (fits: bool, rx: seq<byte>, growth: int)
    requires 1 <= bitsPerWord <= 32 && tx != []
    ensures fits ==> rx == tx && growth == |tx|
    ensures var b, packed := (bitsPerWord - 1) / 8 + 1, !forceUnpacked && bitsPerWord in {8, 16};
            fits <==> |tx| % b == 0 && |tx| <= maxBufSize && (!packed ==> |tx| / b <= maxBufSize / 4)
                      && |tx| <= FIFO_DEPTH * (if packed then 4 else b)
  {
    var p, totalFifoWords := CalculateParam(bitsPerWord, forceUnpacked, |tx|, maxBufSize);
    rx, growth := [], 0;
    fits := ValidLength(p, |tx|, maxBufSize) && totalFifoWords <= FIFO_DEPTH;
    if ValidLength(p, |tx|, maxBufSize) {
      FifoWordsBound(|tx|, p.Group(), totalFifoWords);
    }
    if fits {
      AllWritten(p, |tx|, totalFifoWords);
      rx, growth := Exchange(p, tx);
    }
  }

  /** Transmit from an empty FIFO and receive the same words. */
  method Exchange(p: Param, tx: seq<byte>) returns (rx: seq<byte>, growth: int)
    requires p.Valid() && p.dmaWords * p.bytesPerWord == |tx| && p.dmaWords <= FIFO_DEPTH * p.wordsPer32
    ensures rx == tx && growth == |tx|
  {
    var words, written := FillTxFifo(p, tx, FIFO_DEPTH);
    assert tx[..written * p.bytesPerWord] == tx;
    var t := new Transfer(p, |tx|, written);
    PackCount(tx, p.Group());
    EnoughWords(p, |tx|, written, |words|);
    t.HandleMessage(true, true, words);
    StreamRoundTrip(tx, p.Group());
    assert t.rxBuf[..t.currRxPos] == t.rxBuf[..];
    rx := t.rxBuf[..];
    growth := Growth(|tx|, t.remLen);
  }

  lemma FifoWordsBound(len: nat, g: nat, words: nat)
    requires 1 <= g <= 4 && len <= g * words < len + g
    ensures words <= FIFO_DEPTH <==> len <= FIFO_DEPTH * g
  {
    if words <= FIFO_DEPTH {
      MulMonotone(words, FIFO_DEPTH, g);
    } else {
      MulMonotone(FIFO_DEPTH + 1, words, g);
    }
  }

  /** When the data fits the FIFO, an empty FIFO takes all of it. */
  lemma AllWritten(p: Param, len: nat, totalFifoWords: nat)
    requires p.Valid() && p.dmaWords * p.bytesPerWord == len <= p.Group() * totalFifoWords
    requires totalFifoWords <= FIFO_DEPTH
    ensures p.dmaWords <= FIFO_DEPTH * p.wordsPer32
  {
  }

  /** The packed words of `written` client words are enough to read them all back. */
  lemma EnoughWords(p: Param, len: nat, written: nat, fifoWords: nat)
    requires p.Valid() && written * p.bytesPerWord == len <= p.Group() * fifoWords
    ensures written <= fifoWords * p.wordsPer32
  {
  }

  /** Conservation: actual_length grows by exactly the bytes the transfer moved if and
      only if it only transmits, only receives, or every word received is present; a
      duplex transfer with missing words books the missing ones as moved. */
  method AccountingExactIff(p: Param, words: nat, tx: bool, rx: bool, fifo: seq<nat>) returns (growth: int, received: nat)
    requires p.Valid() && (tx || rx)
    ensures received == if rx then Min(|fifo| * p.wordsPer32, words) * p.bytesPerWord else 0
    ensures tx && !rx ==> growth == words * p.bytesPerWord
    ensures rx ==> (growth == received <==> !tx || |fifo| * p.wordsPer32 >= words)
  {
    var remLen;
    remLen, received := Move(p, words, tx, rx, fifo);
    growth := Growth(words * p.bytesPerWord, remLen);
    ScaledEqual(Min(|fifo| * p.wordsPer32, words), words, p.bytesPerWord);
  }

  /** A transfer of `words` words as the controller reports it. */
  method Move(p: Param, words: nat, tx: bool, rx: bool, fifo: seq<nat>) returns (remLen: int, received: nat)
    requires p.Valid()
    ensures received == if rx then Min(|fifo| * p.wordsPer32, words) * p.bytesPerWord else 0
    ensures remLen == if tx then 0 else words * p.bytesPerWord - received
  {
    var t := new Transfer(p, words * p.bytesPerWord, words);
    t.HandleMessage(tx, rx, fifo);
    return t.remLen, t.currRxPos;
  }

  lemma ScaledEqual(k: nat, n: nat, b: nat)
    requires k <= n && b > 0
    ensures k * b == n * b <==> k == n
  {
  }
}
