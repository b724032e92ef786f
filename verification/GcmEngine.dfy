/** Whole AES-GCM requests: what the client gets from an engine that reads the laid-out
    input through the scatterlist and writes its output into chunks of its own. */
module GcmEngine {
  import opened Bytes
  import opened Wrappers
  import opened ChunkBuffer
  import opened GcmLayout

  /** An uninterpreted AEAD engine: ciphertext and tag from AAD and data, and data from
      AAD, ciphertext and tag unless the tag is wrong. */
  datatype Engine = Engine(
    seal: (seq<byte>, seq<byte>) -> seq<byte>,
    tag: (seq<byte>, seq<byte>) -> seq<byte>,
    unseal: (seq<byte>, seq<byte>, seq<byte>) -> Option<seq<byte>>)

  /** As many bytes out as in, and tags of the fixed size. */
  ghost predicate KeepsLengths(engine: Engine) {
    && (forall a, d :: |engine.seal(a, d)| == |d| && |engine.tag(a, d)| == TAG_SIZE)
    && (forall a, d, t :: engine.unseal(a, d, t).Some? ==> |engine.unseal(a, d, t).value| == |d|)
  }

  lemma NentsMonotone(c: nat, a: nat, b: nat)
    requires c > 0 && a <= b
    ensures Nents(c, a) <= Nents(c, b)
  {
    DivModFacts(a, c);
    IndexInRange(c, b, a / c);
  }

  /** What the engine reads and how it divides it. */
  method ReadInput(buf: array2<byte>, ghost input: seq<byte>, size: nat, aadLen: nat, dataLen: nat)
    returns (aad: seq<byte>, data: seq<byte>, rest: seq<byte>)
    requires buf.Length1 > 0 && buf.Length0 == Nents(buf.Length1, size) && |input| == size && Holds(buf, input)
    requires aadLen + dataLen <= size
    ensures aad == input[..aadLen] && data == input[aadLen..aadLen + dataLen] && rest == input[aadLen + dataLen..]
  {
    var copied, all := CopyKernBuf(size, buf, size, input);
    return all[..aadLen], all[aadLen..aadLen + dataLen], all[aadLen + dataLen..];
  }

  /** The engine's output in chunks of its own. */
  method WriteOutput(c: nat, output: seq<byte>) returns (buf: array2<byte>)
    requires c > 0 && Nents(c, |output|) <= NVVSE_MAX_CHUNKS
    ensures fresh(buf) && buf.Length1 == c && buf.Length0 == Nents(c, |output|) && Holds(buf, output)
  {
    var status, chunks := AllocBuf(c, |output|);
    var copied := CopyUserBuf(|output|, chunks, output);
    return chunks;
  }

  /** Encryption: the client gets exactly the engine's ciphertext and tag for its AAD and
      data. */
  method Encrypt(c: nat, engine: Engine, aad: seq<byte>, data: seq<byte>)
    returns (status: Status, out: seq<byte>, tag: seq<byte>)
    requires c >= TAG_SIZE && KeepsLengths(engine)
    ensures status == if Nents(c, |aad| + |data| + TAG_SIZE) > NVVSE_MAX_CHUNKS then Enomem else Ok
    ensures status == Ok ==> out == engine.seal(aad, data) && tag == engine.tag(aad, data)
  {
    out, tag := [], [];
    NentsMonotone(c, |aad| + |data|, |aad| + |data| + TAG_SIZE);
    var inBuf;
    status, inBuf := LayoutInput(c, true, aad, data, seq(TAG_SIZE, i => 0));
    if status != Ok || (|aad| + |data| + TAG_SIZE) / c + 1 > NVVSE_MAX_CHUNKS {
      return Enomem, out, tag;
    }
    var a, d, _ := ReadInput(inBuf, aad + data, |aad| + |data|, |aad|, |data|);
    var output := a + engine.seal(a, d) + engine.tag(a, d);
    var outBuf := WriteOutput(c, output);
    out, tag := ExtractOutput(outBuf, true, |aad|, |data|, output);
  }

  /** Decryption: the client gets exactly the engine's data for its AAD, ciphertext and
      tag, or nothing when the engine refuses them. */
  method Decrypt(c: nat, engine: Engine, aad: seq<byte>, data: seq<byte>, tag: seq<byte>)
    returns (status: Status, out: Option<seq<byte>>)
    requires c >= TAG_SIZE && |tag| == TAG_SIZE && KeepsLengths(engine)
    ensures status == if Nents(c, |aad| + |data| + TAG_SIZE) > NVVSE_MAX_CHUNKS then Enomem else Ok
    ensures status == Ok ==> out == engine.unseal(aad, data, tag)
  {
    out := None;
    NentsMonotone(c, |aad| + |data|, |aad| + |data| + TAG_SIZE);
    var inBuf;
    status, inBuf := LayoutInput(c, false, aad, data, tag);
    if status != Ok {
      return;
    }
    var a, d, t := ReadInput(inBuf, aad + data + tag, |aad| + |data| + TAG_SIZE, |aad|, |data|);
    assert a == aad && d == data && t == tag;
    var plain := engine.unseal(a, d, t);
    if plain.Some? {
      var outBuf := WriteOutput(c, a + plain.value);
      var text, _ := ExtractOutput(outBuf, false, |aad|, |data|, a + plain.value);
      assert text == plain.value;
      out := Some(text);
    }
  }

  /** Decrypting what was encrypted gives the data back, for every engine whose opening
      undoes its sealing, whatever the lengths and wherever the tag falls. */
  method EncryptThenDecrypt(c: nat, engine: Engine, aad: seq<byte>, data: seq<byte>) returns (status: Status, back: Option<seq<byte>>)
    requires c >= TAG_SIZE && KeepsLengths(engine)
    requires forall a, d :: engine.unseal(a, engine.seal(a, d), engine.tag(a, d)) == Some(d)
    ensures status == if Nents(c, |aad| + |data| + TAG_SIZE) > NVVSE_MAX_CHUNKS then Enomem else Ok
    ensures status == Ok ==> back == Some(data)
  {
    back := None;
    var out, tag;
    status, out, tag := Encrypt(c, engine, aad, data);
    if status == Ok {
      status, back := Decrypt(c, engine, aad, out, tag);
    }
  }
}
