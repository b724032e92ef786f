/** The 128-bit big-endian counter of the crypto device and the CTR counter it carries
    from one encryption call to the next. */
module CtrCounter {
  import opened Bytes

  const CTR_LEN: nat := 16
  const TWO128: nat := 0x1_0000_0000_0000_0000_0000_0000_0000_0000
  /** NVVSE_STATUS_INVALID_PARAMETER */
  const INVALID_PARAMETER: nat := 60
  const AES_PT_MAX_LEN: nat := 16 * 1024 * 1024 - 1

  /** The number that bytes spell, most significant first. */
  function BeValue(bs: seq<byte>): nat {
    if bs == [] then 0 else BeValue(bs[..|bs| - 1]) * 256 + bs[|bs| - 1] as nat
  }

  // ----- bytes, limbs and their values -----------------------------------------

  function Pow256(k: nat): nat
    requires k <= 4
  {
    if k == 0 then 1 else if k == 1 then 0x100 else if k == 2 then 0x1_0000
    else if k == 3 then 0x100_0000 else TWO32
  }

  /** `x |= b << 8 * k` where the target bits are still clear: then it is a sum. */
  function OrByte(x: nat, b: byte, k: nat): nat
    requires k <= 3 && x % Pow256(k + 1) == 0
  {
    x + b as nat * Pow256(k)
  }

  /** Byte k of a limb, counted from the least significant. */
  function ByteOf(w: nat, k: nat): byte
    requires k <= 3
  {
    ((w / Pow256(k)) % 256) as byte
  }

  function LimbValue(l: seq<nat>): nat {
    if l == [] then 0 else LimbValue(l[..|l| - 1]) * TWO32 + l[|l| - 1]
  }

  lemma BePush(bs: seq<byte>, b: byte)
    ensures BeValue(bs + [b]) == BeValue(bs) * 256 + b as nat
  {
  }

  lemma LimbPush(l: seq<nat>, w: nat)
    ensures LimbValue(l + [w]) == LimbValue(l) * TWO32 + w
  {
  }

  lemma BeFour(head: seq<byte>, b0: byte, b1: byte, b2: byte, b3: byte)
    ensures BeValue(head + [b0, b1, b2, b3])
         == BeValue(head) * TWO32 + b0 as nat * 0x100_0000 + b1 as nat * 0x1_0000 + b2 as nat * 0x100 + b3 as nat
  {
    BePush(head, b0);
    BePush(head + [b0], b1);
    BePush(head + [b0] + [b1], b2);
    BePush(head + [b0] + [b1] + [b2], b3);
    assert head + [b0] + [b1] + [b2] + [b3] == head + [b0, b1, b2, b3];
  }

  /** Four bytes as one limb. */
  function Word(b: seq<byte>): nat
    requires |b| == 4
  {
    b[0] as nat * 0x100_0000 + b[1] as nat * 0x1_0000 + b[2] as nat * 0x100 + b[3] as nat
  }

  lemma BeWord(head: seq<byte>, b: seq<byte>)
    requires |b| == 4
    ensures BeValue(head + b) == BeValue(head) * TWO32 + Word(b) && Word(b) < TWO32
  {
    BeFour(head, b[0], b[1], b[2], b[3]);
    assert b == [b[0], b[1], b[2], b[3]];
  }

  /** The limbs of 16 counter bytes spell the same number. */
  lemma BeLimbs(bs: seq<byte>, l: seq<nat>)
    requires |bs| == 16 && |l| == 4
    requires forall i :: 0 <= i < 4 ==> l[i] == Word(bs[4 * i..4 * i + 4])
    ensures BeValue(bs) == LimbValue(l)
  {
    BeWord([], bs[0..4]);
    BeWord(bs[..4], bs[4..8]);
    BeWord(bs[..8], bs[8..12]);
    BeWord(bs[..12], bs[12..16]);
    assert [] + bs[0..4] == bs[..4];
    assert bs[..4] + bs[4..8] == bs[..8];
    assert bs[..8] + bs[8..12] == bs[..12];
    assert bs[..12] + bs[12..16] == bs;
    LimbFour(l);
  }

  lemma LimbFour(l: seq<nat>)
    requires |l| == 4
    ensures LimbValue(l) == ((l[0] * TWO32 + l[1]) * TWO32 + l[2]) * TWO32 + l[3]
  {
    LimbPush([], l[0]);
    LimbPush([l[0]], l[1]);
    LimbPush([l[0], l[1]], l[2]);
    LimbPush([l[0], l[1], l[2]], l[3]);
    assert [] + [l[0]] == [l[0]];
    assert [l[0]] + [l[1]] == [l[0], l[1]];
    assert [l[0], l[1]] + [l[2]] == [l[0], l[1], l[2]];
    assert [l[0], l[1], l[2]] + [l[3]] == l;
  }

  lemma WordOfBytes(w: nat)
    requires w < TWO32
    ensures Word([ByteOf(w, 3), ByteOf(w, 2), ByteOf(w, 1), ByteOf(w, 0)]) == w
  {
    var a, b, c := w / 0x100, w / 0x1_0000, w / 0x100_0000;
    assert b == a / 0x100 && c == b / 0x100;
    assert w == a * 0x100 + w % 0x100 && a == b * 0x100 + a % 0x100 && b == c * 0x100 + b % 0x100;
  }

  // ----- update_counter ----------------------------------------------------------

  /** A limb with its first r bytes in place. */
  ghost predicate Partial(limb: nat, bs: seq<byte>, r: nat)
    requires |bs| == 4 && r <= 4
  {
    match r
    case 0 => limb == 0
    case 1 => limb == bs[0] as nat * 0x100_0000
    case 2 => limb == bs[0] as nat * 0x100_0000 + bs[1] as nat * 0x1_0000
    case 3 => limb == bs[0] as nat * 0x100_0000 + bs[1] as nat * 0x1_0000 + bs[2] as nat * 0x100
    case 4 => limb == Word(bs)
  }

  lemma PartialIsClear(limb: nat, bs: seq<byte>, r: nat)
    requires |bs| == 4 && r < 4 && Partial(limb, bs, r)
    ensures limb % Pow256(4 - r) == 0
    ensures Partial(OrByte(limb, bs[r], 3 - r), bs, r + 1)
  {
    var a, b, c := bs[0] as nat, bs[1] as nat, bs[2] as nat;
    match r
    case 0 => MultipleIsClear(0, TWO32);
    case 1 => MultipleIsClear(a, 0x100_0000);
    case 2 => MultipleIsClear(a * 0x100 + b, 0x1_0000);
    case 3 => MultipleIsClear(a * 0x1_0000 + b * 0x100 + c, 0x100);
  }

  lemma MultipleIsClear(q: nat, d: nat)
    requires d > 0
    ensures (q * d) % d == 0
  {
    DivModUnique(q * d, d, q, 0);
  }

  /** The limbs after the first `index` counter bytes. */
  ghost predicate Loaded(l: seq<nat>, bs: seq<byte>, index: nat)
    requires |l| == 4 && |bs| == CTR_LEN && index <= CTR_LEN
  {
    forall i :: 0 <= i < 4 ==> Partial(l[i], bs[4 * i..4 * i + 4], FilledBytes(i, index))
  }

  /** How many bytes of limb i are in after `index` bytes. */
  function FilledBytes(i: nat, index: nat): (r: nat)
    ensures r <= 4
  {
    if index <= 4 * i then 0 else Min(index - 4 * i, 4)
  }

  /** The next byte goes into limb index / 4, behind the index % 4 already there; what
      the other limbs hold does not change. */
  lemma Filling(index: nat)
    requires index < CTR_LEN
    ensures index / 4 < 4 && FilledBytes(index / 4, index) == index % 4 && FilledBytes(index / 4, index + 1) == index % 4 + 1
    ensures forall k :: 0 <= k < 4 && k != index / 4 ==> FilledBytes(k, index) == FilledBytes(k, index + 1)
  {
  }

  lemma LoadStep(l: seq<nat>, bs: seq<byte>, index: nat)
    requires |l| == 4 && |bs| == CTR_LEN && index < CTR_LEN && Loaded(l, bs, index)
    ensures l[index / 4] % Pow256(4 - index % 4) == 0
    ensures Loaded(l[index / 4 := OrByte(l[index / 4], bs[index], 3 - index % 4)], bs, index + 1)
  {
    var i, r := index / 4, index % 4;
    Filling(index);
    var group := bs[4 * i..4 * i + 4];
    assert group[r] == bs[index];
    assert Partial(l[i], group, r);
    PartialIsClear(l[i], group, r);
    var l' := l[i := OrByte(l[i], bs[index], 3 - r)];
    forall k | 0 <= k < 4 ensures Partial(l'[k], bs[4 * k..4 * k + 4], FilledBytes(k, index + 1)) {
      if k != i {
        assert Partial(l[k], bs[4 * k..4 * k + 4], FilledBytes(k, index));
      }
    }
  }

  method LoadLimbs(pctrBe: array<byte>) returns (ctrLe: array<nat>)
    requires pctrBe.Length == CTR_LEN
    ensures fresh(ctrLe) && ctrLe.Length == 4 && LimbValue(ctrLe[..]) == BeValue(pctrBe[..])
    ensures forall i :: 0 <= i < 4 ==> ctrLe[i] < TWO32
  {
    ctrLe := new nat[4](i => 0);
    ghost var bs := pctrBe[..];
    for index := 0 to CTR_LEN
      invariant Loaded(ctrLe[..], bs, index)
    {
      LoadStep(ctrLe[..], bs, index);
      ghost var l := ctrLe[..];
      ctrLe[index / 4] := OrByte(ctrLe[index / 4], pctrBe[index], 4 - (index % 4) - 1);
      assert ctrLe[..] == l[index / 4 := OrByte(l[index / 4], bs[index], 3 - index % 4)];
    }
    LoadedAll(ctrLe[..], bs);
  }

  lemma LoadedAll(l: seq<nat>, bs: seq<byte>)
    requires |l| == 4 && |bs| == CTR_LEN && Loaded(l, bs, CTR_LEN)
    ensures LimbValue(l) == BeValue(bs) && forall i :: 0 <= i < 4 ==> l[i] < TWO32
  {
    forall i | 0 <= i < 4 ensures l[i] == Word(bs[4 * i..4 * i + 4]) {
      assert Partial(l[i], bs[4 * i..4 * i + 4], 4);
    }
    BeLimbs(bs, l);
  }

  /** The carry loop, from the least significant limb up. */
  method AddWithCarry(ctrLe: array<nat>, size: nat) returns (resultLe: array<nat>, increment: nat)
    requires ctrLe.Length == 4 && size < TWO32 && forall i :: 0 <= i < 4 ==> ctrLe[i] < TWO32
    ensures fresh(resultLe) && resultLe.Length == 4 && forall i :: 0 <= i < 4 ==> resultLe[i] < TWO32
    ensures increment * TWO128 + LimbValue(resultLe[..]) == LimbValue(ctrLe[..]) + size
  {
    resultLe := new nat[4](i => 0);
    increment := size;
    var count := 3;
    while count >= 0
      invariant -1 <= count <= 3 && (forall i :: 0 <= i < 4 ==> resultLe[i] < TWO32)
      invariant increment < TWO32
      invariant increment * Weight(count + 1) + Tail(resultLe[..], count + 1) == Tail(ctrLe[..], count + 1) + size
    {
      var sum := ctrLe[count] + increment;
      ghost var before := resultLe[..];
      resultLe[count] := sum % TWO32;
      CarryStep(ctrLe[..], before, resultLe[..], count, increment, size);
      increment := sum / TWO32;
      count := count - 1;
    }
    LimbFour(ctrLe[..]);
    LimbFour(resultLe[..]);
    TailAll(ctrLe[..]);
    TailAll(resultLe[..]);
  }

  /** The weight of limb k - 1, that is, of a carry out of limb k. */
  function Weight(k: int): nat
    requires 0 <= k <= 4
  {
    if k == 4 then 1 else if k == 3 then TWO32 else if k == 2 then TWO32 * TWO32
    else if k == 1 then TWO32 * TWO32 * TWO32 else TWO128
  }

  /** The value of the limbs from k on. */
  function Tail(l: seq<nat>, k: int): nat
    requires |l| == 4 && 0 <= k <= 4
    decreases 4 - k
  {
    if k == 4 then 0 else l[k] * Weight(k + 1) + Tail(l, k + 1)
  }

  lemma TailAll(l: seq<nat>)
    requires |l| == 4
    ensures Tail(l, 0) == ((l[0] * TWO32 + l[1]) * TWO32 + l[2]) * TWO32 + l[3]
  {
  }

  lemma {:induction false} TailFrame(a: seq<nat>, b: seq<nat>, k: int)
    requires |a| == |b| == 4 && 0 <= k <= 4 && a[k..] == b[k..]
    ensures Tail(a, k) == Tail(b, k)
    decreases 4 - k
  {
  }

  lemma CarryStep(ctr: seq<nat>, before: seq<nat>, after: seq<nat>, count: int, inc: nat, size: nat)
    requires |ctr| == |before| == |after| == 4 && 0 <= count <= 3
    requires after == before[count := (ctr[count] + inc) % TWO32]
    requires inc * Weight(count + 1) + Tail(before, count + 1) == Tail(ctr, count + 1) + size
    ensures (ctr[count] + inc) / TWO32 * Weight(count) + Tail(after, count) == Tail(ctr, count) + size
  {
    TailFrame(before, after, count + 1);
    CarryValue(ctr[count] + inc, Weight(count + 1));
    assert Weight(count) == TWO32 * Weight(count + 1);
    assert (ctr[count] + inc) * Weight(count + 1) == ctr[count] * Weight(count + 1) + inc * Weight(count + 1);
  }

  lemma CarryValue(sum: nat, w: nat)
    ensures sum / TWO32 * (TWO32 * w) + sum % TWO32 * w == sum * w
  {
  }

  method StoreLimbs(resultLe: array<nat>, pctrBe: array<byte>)
    requires pctrBe.Length == CTR_LEN && resultLe.Length == 4 && forall i :: 0 <= i < 4 ==> resultLe[i] < TWO32
    modifies pctrBe
    ensures BeValue(pctrBe[..]) == LimbValue(resultLe[..])
  {
    for index := 0 to CTR_LEN
      invariant forall j :: 0 <= j < index ==> pctrBe[j] == ByteOf(resultLe[j / 4], 3 - j % 4)
    {
      pctrBe[index] := ByteOf(resultLe[index / 4], 4 - (index % 4) - 1);
    }
    ghost var bs, l := pctrBe[..], resultLe[..];
    forall i | 0 <= i < 4 ensures l[i] == Word(bs[4 * i..4 * i + 4]) {
      WordOfBytes(l[i]);
      assert bs[4 * i..4 * i + 4] == [ByteOf(l[i], 3), ByteOf(l[i], 2), ByteOf(l[i], 1), ByteOf(l[i], 0)];
    }
    BeLimbs(bs, l);
  }

  /** `update_counter`: exact 128-bit addition, or an error and the bytes unchanged. */
  method UpdateCounter(pctrBe: array<byte>, size: nat) returns (status: nat)
    requires pctrBe.Length == CTR_LEN && size < TWO32
    modifies pctrBe
    ensures status == (if old(BeValue(pctrBe[..])) + size < TWO128 then 0 else INVALID_PARAMETER)
    ensures status == 0 ==> BeValue(pctrBe[..]) == old(BeValue(pctrBe[..])) + size
    ensures status != 0 ==> pctrBe[..] == old(pctrBe[..])
  {
    var ctrLe := LoadLimbs(pctrBe);
    var resultLe, increment := AddWithCarry(ctrLe, size);
    LimbsBounded(resultLe[..]);
    if increment != 0 {
      return INVALID_PARAMETER;
    }
    StoreLimbs(resultLe, pctrBe);
    status := 0;
  }

  lemma LimbsBounded(l: seq<nat>)
    requires |l| == 4 && forall i :: 0 <= i < 4 ==> l[i] < TWO32
    ensures LimbValue(l) < TWO128
  {
    LimbFour(l);
  }

  lemma BeBounded(bs: seq<byte>)
    requires |bs| == CTR_LEN
    ensures BeValue(bs) < TWO128
  {
    var l := [Word(bs[0..4]), Word(bs[4..8]), Word(bs[8..12]), Word(bs[12..16])];
    BeLimbs(bs, l);
    LimbsBounded(l);
  }

  // ----- the counter carried across calls ---------------------------------------

  /** The block cipher and the XOR with the data, uninterpreted: counter value, place
      in the block, input byte (section 6.5 of NIST SP 800-38A). */
  type Cipher = (nat, nat, byte) -> byte

  /** CTR mode over one buffer, counters wrapping modulo 2^128. */
  function CtrStream(cipher: Cipher, ctr: nat, data: seq<byte>): (out: seq<byte>)
    ensures |out| == |data|
  {
    seq(|data|, j requires 0 <= j < |data| => cipher((ctr + j / CTR_LEN) % TWO128, j % CTR_LEN, data[j]))
  }

  datatype Status = Ok | Einval | CounterOverflow

  /** The part of the crypto device's context that CTR calls share. */
  class CryptoContext {
    const intermediateCounter: array<byte>

    ghost predicate Valid() {
      intermediateCounter.Length == CTR_LEN
    }

    constructor ()
      ensures Valid() && fresh(intermediateCounter)
    {
      intermediateCounter := new byte[CTR_LEN](i => 0);
    }

    /** `aes_enc_dec` in CTR mode with a user nonce. */
    method AesCtr(cipher: Cipher, isEncryption: bool, isFirst: bool, initialCounter: seq<byte>, data: seq<byte>)
      returns (status: Status, out: seq<byte>)
      requires Valid() && |initialCounter| == CTR_LEN
      modifies intermediateCounter
      ensures status == Einval <==> |data| > AES_PT_MAX_LEN
      ensures status == Einval ==> intermediateCounter[..] == old(intermediateCounter[..])
      ensures status != Einval ==>
                var start := if isFirst || !isEncryption then BeValue(initialCounter)
                             else old(BeValue(intermediateCounter[..]));
                && out == CtrStream(cipher, start, data)
                && (status == CounterOverflow <==> isEncryption && start + |data| / CTR_LEN >= TWO128)
                && BeValue(intermediateCounter[..]) ==
                     (if isEncryption && status == Ok then start + |data| / CTR_LEN
                      else if isFirst then 0 else old(BeValue(intermediateCounter[..])))
    {
      if |data| > AES_PT_MAX_LEN {
        return Einval, [];
      }
      if isFirst {
        ZeroValue(seq(CTR_LEN, i => 0));
        CopyBytes(seq(CTR_LEN, i => 0), intermediateCounter);
      }
      var nextBlockIv := new byte[CTR_LEN];
      CopyBytes(if isFirst || !isEncryption then initialCounter else intermediateCounter[..], nextBlockIv);
      out := CtrStream(cipher, BeValue(nextBlockIv[..]), data);
      if isEncryption {
        var ret := UpdateCounter(nextBlockIv, |data| / 16);
        if ret != 0 {
          return CounterOverflow, out;
        }
        CopyBytes(nextBlockIv[..], intermediateCounter);
      }
      status := Ok;
    }
  }

  method CopyBytes(src: seq<byte>, dst: array<byte>)
    requires |src| == dst.Length
    modifies dst
    ensures dst[..] == src
  {
    forall i | 0 <= i < dst.Length {
      dst[i] := src[i];
    }
  }

  lemma {:induction false} ZeroValue(bs: seq<byte>)
    requires forall i :: 0 <= i < |bs| ==> bs[i] == 0
    ensures BeValue(bs) == 0
    decreases |bs|
  {
    if bs != [] {
      ZeroValue(bs[..|bs| - 1]);
    }
  }

  /** Two stretches of CTR output are one when the first is whole blocks. */
  lemma CtrJoins(cipher: Cipher, ctr: nat, a: seq<byte>, b: seq<byte>)
    requires |a| % CTR_LEN == 0
    ensures CtrStream(cipher, ctr, a) + CtrStream(cipher, ctr + |a| / CTR_LEN, b) == CtrStream(cipher, ctr, a + b)
  {
    var joined := CtrStream(cipher, ctr, a) + CtrStream(cipher, ctr + |a| / CTR_LEN, b);
    forall j | 0 <= j < |a| + |b| ensures joined[j] == CtrStream(cipher, ctr, a + b)[j] {
      if j >= |a| {
        ShiftedPlace(|a|, j - |a|);
      }
    }
  }

  lemma ShiftedPlace(n: nat, k: nat)
    requires n % CTR_LEN == 0
    ensures (n + k) / CTR_LEN == n / CTR_LEN + k / CTR_LEN && (n + k) % CTR_LEN == k % CTR_LEN
  {
  }

  /** The counter a call starts from: the initial value plus all blocks before it. */
  function StartOf(initial: nat, earlier: seq<seq<byte>>): nat {
    if earlier == [] then initial
    else StartOf(initial, earlier[..|earlier| - 1]) + |earlier[|earlier| - 1]| / CTR_LEN
  }

  /** Calls that do not end a message are whole blocks; then the streamed output is
      the output of one call on everything, and each call starts where the blocks of
      the earlier ones end. */
  method EncryptInCalls(ctx: CryptoContext, cipher: Cipher, initialCounter: seq<byte>, calls: seq<seq<byte>>)
    returns (ok: bool, out: seq<byte>)
    requires ctx.Valid() && |initialCounter| == CTR_LEN && calls != [] && WholeBlocks(calls[..|calls| - 1])
    requires forall i :: 0 <= i < |calls| ==> |calls[i]| <= AES_PT_MAX_LEN
    modifies ctx.intermediateCounter
    ensures ok <==> StartOf(BeValue(initialCounter), calls) < TWO128
    ensures ok ==> out == CtrStream(cipher, BeValue(initialCounter), Flatten(calls))
    ensures ok ==> BeValue(ctx.intermediateCounter[..]) == StartOf(BeValue(initialCounter), calls)
  {
    ghost var v := BeValue(initialCounter);
    out := [];
    assert Flatten(calls[..0]) == [] && CtrStream(cipher, v, []) == [];
    BeBounded(initialCounter);
    for i := 0 to |calls|
      invariant out == CtrStream(cipher, v, Flatten(calls[..i]))
      invariant i > 0 ==> BeValue(ctx.intermediateCounter[..]) == StartOf(v, calls[..i])
      invariant StartOf(v, calls[..i]) < TWO128
    {
      var status, piece := EncryptNext(ctx, cipher, initialCounter, calls, i);
      if status == CounterOverflow {
        StartGrows(v, calls, i + 1);
        return false, out;
      }
      out := out + piece;
    }
    assert calls[..|calls|] == calls;
    ok := true;
  }

  /** Call number i continues where the calls before it ended. */
  method EncryptNext(ctx: CryptoContext, cipher: Cipher, initialCounter: seq<byte>, calls: seq<seq<byte>>, i: nat)
    returns (status: Status, piece: seq<byte>)
    requires ctx.Valid() && |initialCounter| == CTR_LEN && i < |calls| && WholeBlocks(calls[..|calls| - 1])
    requires |calls[i]| <= AES_PT_MAX_LEN
    requires i > 0 ==> BeValue(ctx.intermediateCounter[..]) == StartOf(BeValue(initialCounter), calls[..i])
    modifies ctx.intermediateCounter
    ensures var v := BeValue(initialCounter);
            && status == (if StartOf(v, calls[..i + 1]) >= TWO128 then CounterOverflow else Ok)
            && (status == Ok ==> BeValue(ctx.intermediateCounter[..]) == StartOf(v, calls[..i + 1]))
            && CtrStream(cipher, v, Flatten(calls[..i])) + piece == CtrStream(cipher, v, Flatten(calls[..i + 1]))
  {
    NextCall(cipher, BeValue(initialCounter), calls, i);
    status, piece := ctx.AesCtr(cipher, true, i == 0, initialCounter, calls[i]);
  }

  /** What one more call adds to the counter and to the output. */
  lemma NextCall(cipher: Cipher, v: nat, calls: seq<seq<byte>>, i: nat)
    requires i < |calls| && WholeBlocks(calls[..|calls| - 1])
    ensures StartOf(v, calls[..i + 1]) == StartOf(v, calls[..i]) + |calls[i]| / CTR_LEN
    ensures CtrStream(cipher, v, Flatten(calls[..i])) + CtrStream(cipher, StartOf(v, calls[..i]), calls[i])
         == CtrStream(cipher, v, Flatten(calls[..i + 1]))
    ensures i == 0 ==> StartOf(v, calls[..i]) == v
  {
    assert calls[..i + 1][..i] == calls[..i];
    assert calls[..i + 1] == calls[..i] + [calls[i]];
    FlattenAppend(calls[..i], [calls[i]]);
    FlattenOne(calls[i]);
    assert forall k :: 0 <= k < i ==> calls[..i][k] == calls[..|calls| - 1][k];
    StartIsTotal(v, calls[..i]);
    CtrJoins(cipher, v, Flatten(calls[..i]), calls[i]);
  }

  lemma {:induction false} StartIsTotal(v: nat, calls: seq<seq<byte>>)
    requires WholeBlocks(calls)
    ensures |Flatten(calls)| % CTR_LEN == 0 && StartOf(v, calls) == v + |Flatten(calls)| / CTR_LEN
    decreases |calls|
  {
    if calls != [] {
      var n := |calls| - 1;
      StartIsTotal(v, calls[..n]);
      assert calls == calls[..n] + [calls[n]];
      FlattenAppend(calls[..n], [calls[n]]);
      FlattenOne(calls[n]);
      ShiftedPlace(|Flatten(calls[..n])|, |calls[n]|);
    }
  }

  lemma {:induction false} StartGrows(v: nat, calls: seq<seq<byte>>, i: nat)
    requires i <= |calls|
    ensures StartOf(v, calls[..i]) <= StartOf(v, calls)
    decreases |calls| - i
  {
    if i == |calls| {
      assert calls[..i] == calls;
    } else {
      assert calls[..i + 1][..i] == calls[..i];
      StartGrows(v, calls, i + 1);
    }
  }

  /** The counters a call uses. */
  predicate UsesCounter(start: nat, len: nat, counter: nat) {
    start <= counter < start + (len + CTR_LEN - 1) / CTR_LEN
  }

  /** Consecutive calls use disjoint counters exactly when the first one is a whole
      number of blocks; otherwise they share the counter of its partial block. */
  lemma CountersDisjointIff(start: nat, len: nat, nextLen: nat)
    requires nextLen > 0
    ensures var next := start + len / CTR_LEN;
            (forall c: nat :: !(UsesCounter(start, len, c) && UsesCounter(next, nextLen, c))) <==> len % CTR_LEN == 0
    ensures var next := start + len / CTR_LEN;
            len % CTR_LEN != 0 ==>
              forall c: nat :: UsesCounter(start, len, c) && UsesCounter(next, nextLen, c) <==> c == next
  {
    var next := start + len / CTR_LEN;
    if len % CTR_LEN != 0 {
      assert UsesCounter(start, len, next) && UsesCounter(next, nextLen, next);
    }
  }

  /** One block: the cipher at this counter, byte by byte. */
  function CtrBlock(cipher: Cipher, counter: nat, block: seq<byte>): (out: seq<byte>)
    requires |block| <= CTR_LEN
    ensures |out| == |block|
  {
    seq(|block|, o requires 0 <= o < |block| => cipher(counter % TWO128, o, block[o]))
  }

  /** Section 6.5 of NIST SP 800-38A: block after block, each with the next counter. */
  function CtrBlocks(cipher: Cipher, counter: nat, data: seq<byte>): seq<byte>
    decreases |data|
  {
    if |data| <= CTR_LEN then CtrBlock(cipher, counter, data)
    else CtrBlock(cipher, counter, data[..CTR_LEN]) + CtrBlocks(cipher, counter + 1, data[CTR_LEN..])
  }

  /** The output of a call is that of its blocks, starting with the call's counter. */
  lemma {:induction false} StreamIsBlocks(cipher: Cipher, ctr: nat, data: seq<byte>)
    ensures CtrStream(cipher, ctr, data) == CtrBlocks(cipher, ctr, data)
    decreases |data|
  {
    if |data| > CTR_LEN {
      var head, rest := data[..CTR_LEN], data[CTR_LEN..];
      StreamIsBlocks(cipher, ctr + 1, rest);
      assert CtrStream(cipher, ctr, head) == CtrBlock(cipher, ctr, head);
      CtrJoins(cipher, ctr, head, rest);
      assert head + rest == data;
    }
  }

  /** Two ciphers that differ at no counter but this one. */
  ghost predicate DifferOnlyAt(f: Cipher, g: Cipher, counter: nat) {
    forall k: nat, o: nat, b: byte :: k != counter ==> f(k, o, b) == g(k, o, b)
  }

  ghost predicate Tells(f: Cipher, g: Cipher, counter: nat, start: nat, data: seq<byte>) {
    DifferOnlyAt(f, g, counter) && CtrStream(f, start, data) != CtrStream(g, start, data)
  }

  /** What a call does depends on the cipher at a counter exactly when it uses that
      counter. */
  lemma UsesCounterIff(start: nat, data: seq<byte>, counter: nat)
    requires start + (|data| + CTR_LEN - 1) / CTR_LEN <= TWO128
    ensures UsesCounter(start, |data|, counter) <==> exists f, g :: Tells(f, g, counter, start, data)
  {
    if UsesCounter(start, |data|, counter) {
      var f: Cipher := (k: nat, o: nat, b: byte) => 0;
      var g: Cipher := (k: nat, o: nat, b: byte) => if k == counter then 1 else 0;
      var j := (counter - start) * CTR_LEN;
      assert (start + j / CTR_LEN) % TWO128 == counter;
      assert CtrStream(f, start, data)[j] != CtrStream(g, start, data)[j];
      assert Tells(f, g, counter, start, data);
    } else {
      forall f: Cipher, g: Cipher | DifferOnlyAt(f, g, counter) ensures CtrStream(f, start, data) == CtrStream(g, start, data) {
        forall j | 0 <= j < |data| ensures CtrStream(f, start, data)[j] == CtrStream(g, start, data)[j] {
          assert (start + j / CTR_LEN) % TWO128 == start + j / CTR_LEN != counter;
        }
      }
    }
  }

  /** Decryption takes the initial counter in one call and undoes any streamed
      encryption, provided the cipher's XOR undoes itself. */
  lemma OneCallDecrypts(cipher: Cipher, ctr: nat, data: seq<byte>)
    requires forall c: nat, o: nat, b: byte :: cipher(c, o, cipher(c, o, b)) == b
    ensures CtrStream(cipher, ctr, CtrStream(cipher, ctr, data)) == data
  {
  }
}
