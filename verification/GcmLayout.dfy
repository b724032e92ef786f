/** The AES-GCM request of the crypto device: AAD, data and tag placed over fixed-size
    chunks, and data and tag taken back out of the output chunks. */
module GcmLayout {
  import opened Bytes
  import opened ChunkBuffer

  const TAG_SIZE: nat := 16
  const GCM_MAX_LEN: nat := 16 * 1024 * 1024 - 1

  /** Requests within the length limits never need more chunks than there are. */
  lemma ChunksSuffice(aadLen: nat, dataLen: nat)
    requires aadLen <= GCM_MAX_LEN && dataLen <= GCM_MAX_LEN
    ensures Nents(NVVSE_CHUNK_SIZE, aadLen + dataLen + TAG_SIZE) <= NVVSE_MAX_CHUNKS
    ensures Nents(NVVSE_CHUNK_SIZE, aadLen + dataLen) <= NVVSE_MAX_CHUNKS
  {
  }

  /** The limit is tight: the longest decryption request fills all 33 chunks. */
  lemma ChunksNeeded()
    ensures Nents(NVVSE_CHUNK_SIZE, GCM_MAX_LEN + GCM_MAX_LEN + TAG_SIZE) == NVVSE_MAX_CHUNKS
  {
  }

  /** What the engine is to read. */
  function Input(enc: bool, aad: seq<byte>, data: seq<byte>, tag: seq<byte>): seq<byte> {
    if enc then aad + data else aad + data + tag
  }

  /** The place behind n message bytes: in the chunk they end in, or at the end of it. */
  ghost predicate Behind(c: nat, idx: nat, offset: nat, n: nat) {
    Pos(c, idx, offset) == n && offset <= c
  }

  /** Chunk number i of what remains is copied to chunk startIdx + i. */
  lemma Advance(c: nat, startIdx: nat, i: nat, n: nat, from: nat)
    requires c > 0 && i < n / c && Pos(c, startIdx, 0) == from
    ensures Pos(c, i, 0) + c == Pos(c, i + 1, 0) <= n
    ensures Pos(c, startIdx + i, 0) == from + Pos(c, i, 0)
    ensures Pos(c, startIdx + i + 1, 0) == from + Pos(c, i + 1, 0)
  {
    FullChunkFits(c, n, i);
    PosNext(c, i);
    PosSum(c, startIdx, i);
    PosSum(c, startIdx, i + 1);
  }

  lemma PosSum(c: nat, a: nat, b: nat)
    ensures Pos(c, a + b, 0) == Pos(c, a, 0) + Pos(c, b, 0)
  {
  }

  /** The place where the rest goes, after all whole chunks. */
  lemma RestPlace(c: nat, startIdx: nat, n: nat, from: nat)
    requires c > 0 && Pos(c, startIdx, 0) == from
    ensures Pos(c, n / c, 0) <= n && n - Pos(c, n / c, 0) == n % c < c
    ensures Pos(c, startIdx + n / c, 0) == from + Pos(c, n / c, 0)
    ensures Pos(c, startIdx + n / c, n % c) == from + n
  {
  }

  /** Whole chunks from the start of a chunk on, then the rest; `t` is what the buffer
      holds already. */
  method CopyWhole(buf: array2<byte>, ghost t: seq<byte>, rest: seq<byte>, startIdx: nat, ghost size: nat)
    returns (idx: nat, offset: nat)
    requires buf.Length1 >= TAG_SIZE && buf.Length0 == Nents(buf.Length1, size) && |t| + |rest| <= size
    requires Holds(buf, t) && Pos(buf.Length1, startIdx, 0) == |t|
    modifies buf
    ensures Holds(buf, t + rest) && Behind(buf.Length1, idx, offset, |t| + |rest|) && offset < buf.Length1
  {
    var c := buf.Length1;
    idx, offset := startIdx, 0;
    var i, at := 0, 0;
    assert t + rest[..0] == t;
    while i < |rest| / c
      invariant i <= |rest| / c && idx == startIdx + i && at == Pos(c, i, 0) <= |rest|
      invariant Holds(buf, t + rest[..at])
    {
      Advance(c, startIdx, i, |rest|, |t|);
      IndexInRange(c, size, idx);
      Append(buf, t + rest[..at], idx, 0, rest[at..at + c]);
      assert t + rest[..at] + rest[at..at + c] == t + rest[..at + c];
      idx := idx + 1;
      i := i + 1;
      at := i * c;
    }
    RestPlace(c, startIdx, |rest|, |t|);
    assert t + rest[..at] + rest[at..] == t + rest;
    if |rest| % c != 0 {
      IndexInRange(c, size, idx);
      Append(buf, t + rest[..at], idx, 0, rest[at..]);
      offset := |rest| % c;
    }
  }

  /** Data goes first into what the AAD left free of its last chunk. */
  method FillChunk(buf: array2<byte>, ghost s: seq<byte>, data: seq<byte>, startIdx: nat, startOffset: nat, ghost size: nat)
    returns (copied: nat, idx: nat, offset: nat)
    requires buf.Length1 >= TAG_SIZE && buf.Length0 == Nents(buf.Length1, size) && |s| + |data| <= size
    requires Holds(buf, s) && Behind(buf.Length1, startIdx, startOffset, |s|) && startOffset < buf.Length1
    modifies buf
    ensures copied <= |data| && Holds(buf, s + data[..copied]) && Behind(buf.Length1, idx, offset, |s| + copied)
    ensures copied < |data| ==> offset == 0
  {
    copied, idx, offset := 0, startIdx, startOffset;
    assert s + data[..0] == s;
    if offset != 0 && |data| != 0 {
      copied := Min(buf.Length1 - offset, |data|);
      IndexInRange(buf.Length1, size, idx);
      Append(buf, s, idx, offset, data[..copied]);
      if copied == |data| {
        offset := offset + copied;
      } else {
        PosNext(buf.Length1, idx);
        offset := 0;
        idx := idx + 1;
      }
    }
  }

  /** The tag goes behind the data, across two chunks if it has to. */
  method CopyTag(buf: array2<byte>, ghost s: seq<byte>, tag: seq<byte>, idx: nat, offset: nat)
    requires buf.Length1 >= TAG_SIZE && |tag| == TAG_SIZE && buf.Length0 == Nents(buf.Length1, |s| + TAG_SIZE)
    requires Holds(buf, s) && Behind(buf.Length1, idx, offset, |s|)
    modifies buf
    ensures Holds(buf, s + tag)
  {
    var c := buf.Length1;
    IndexInRange(c, |s| + TAG_SIZE, idx);
    if c - offset > TAG_SIZE {
      Append(buf, s, idx, offset, tag);
    } else {
      var tagLengthCopied := c - offset;
      Append(buf, s, idx, offset, tag[..tagLengthCopied]);
      PosNext(c, idx);
      IndexInRange(c, |s| + TAG_SIZE, idx + 1);
      Append(buf, s + tag[..tagLengthCopied], idx + 1, 0, tag[tagLengthCopied..]);
      assert s + tag[..tagLengthCopied] + tag[tagLengthCopied..] == s + tag;
    }
  }

  /** Input layout: read through the scatterlist, the filled chunks are AAD, data and,
      for decryption, the tag, with nothing between or on top of each other. */
  method LayoutInput(c: nat, enc: bool, aad: seq<byte>, data: seq<byte>, tag: seq<byte>)
    returns (status: Status, buf: array2<byte>)
    requires c >= TAG_SIZE && |tag| == TAG_SIZE
    ensures var input := Input(enc, aad, data, tag);
            && status == (if Nents(c, |input|) > NVVSE_MAX_CHUNKS then Enomem else Ok)
            && (status == Ok ==>
                  && fresh(buf) && buf.Length1 == c && buf.Length0 == Nents(c, |input|)
                  && Holds(buf, input) && SgBytes(buf, |input|) == input)
    ensures status == Ok ==>
              var read := SgBytes(buf, |aad| + |data| + (if enc then 0 else TAG_SIZE));
              && read[..|aad|] == aad && read[|aad|..|aad| + |data|] == data
              && read[|aad| + |data|..] == (if enc then [] else tag)
  {
    var inSz := if enc then |aad| + |data| else |aad| + |data| + TAG_SIZE;
    status, buf := AllocBuf(c, inSz);
    if status != Ok {
      return;
    }
    var idx, offset := CopyWhole(buf, [], aad, 0, inSz);
    assert [] + aad == aad;
    var copied;
    copied, idx, offset := FillChunk(buf, aad, data, idx, offset, inSz);
    assert aad + data[..copied] + data[copied..] == aad + data;
    if |data| - copied != 0 {
      idx, offset := CopyWhole(buf, aad + data[..copied], data[copied..], idx, inSz);
    }
    if !enc {
      CopyTag(buf, aad + data, tag, idx, offset);
    }
    SgBytesIs(buf, Input(enc, aad, data, tag));
    Parts(aad, data, tag);
  }

  /** AAD first, then the data, then the tag. */
  lemma Parts(aad: seq<byte>, data: seq<byte>, tag: seq<byte>)
    ensures var s := aad + data; s[..|aad|] == aad && s[|aad|..|aad| + |data|] == data && s[|aad| + |data|..] == []
    ensures var s := aad + data + tag;
            s[..|aad|] == aad && s[|aad|..|aad| + |data|] == data && s[|aad| + |data|..] == tag
  {
  }

  // ----- output -------------------------------------------------------------------

  /** Whole chunks from the start of a chunk on, then the rest, back to the client. */
  method TakeWhole(buf: array2<byte>, ghost s: seq<byte>, ghost from: nat, n: nat, startIdx: nat)
    returns (out: seq<byte>, idx: nat, offset: nat)
    requires buf.Length1 >= TAG_SIZE && buf.Length0 == Nents(buf.Length1, |s|) && from + n <= |s| && Holds(buf, s)
    requires Pos(buf.Length1, startIdx, 0) == from
    ensures out == s[from..from + n] && Behind(buf.Length1, idx, offset, from + n)
  {
    var c := buf.Length1;
    idx, offset, out := startIdx, 0, [];
    var i := 0;
    ghost var at := 0;
    while i < n / c
      invariant i <= n / c && idx == startIdx + i && at == Pos(c, i, 0) <= n && out == s[from..from + at]
    {
      Advance(c, startIdx, i, n, from);
      IndexInRange(c, |s|, idx);
      var piece := ReadAt(buf, s, idx, 0, c);
      out := out + piece;
      idx := idx + 1;
      i := i + 1;
      at := at + c;
    }
    RestPlace(c, startIdx, n, from);
    if n % c != 0 {
      IndexInRange(c, |s|, idx);
      var piece := ReadAt(buf, s, idx, 0, n % c);
      out := out + piece;
      offset := n % c;
    }
  }

  /** Data that shares its first chunk with the AAD. */
  method TakeFirst(buf: array2<byte>, ghost s: seq<byte>, n: nat, startIdx: nat, startOffset: nat, ghost from: nat)
    returns (copied: nat, out: seq<byte>, idx: nat, offset: nat)
    requires buf.Length1 >= TAG_SIZE && buf.Length0 == Nents(buf.Length1, |s|) && from + n <= |s| && Holds(buf, s)
    requires Behind(buf.Length1, startIdx, startOffset, from) && startOffset < buf.Length1
    ensures copied <= n && out == s[from..from + copied] && Behind(buf.Length1, idx, offset, from + copied)
    ensures copied < n ==> offset == 0
  {
    copied, out, idx, offset := 0, [], startIdx, startOffset;
    if offset != 0 && n != 0 {
      copied := Min(buf.Length1 - offset, n);
      IndexInRange(buf.Length1, |s|, idx);
      out := ReadAt(buf, s, idx, offset, copied);
      if copied == n {
        offset := offset + copied;
      } else {
        PosNext(buf.Length1, idx);
        offset := 0;
        idx := idx + 1;
      }
    }
  }

  method TakeTag(buf: array2<byte>, ghost s: seq<byte>, idx: nat, offset: nat, ghost from: nat) returns (tag: seq<byte>)
    requires buf.Length1 >= TAG_SIZE && buf.Length0 == Nents(buf.Length1, |s|) && Holds(buf, s)
    requires |s| == from + TAG_SIZE && Behind(buf.Length1, idx, offset, from)
    ensures tag == s[from..]
  {
    var c := buf.Length1;
    IndexInRange(c, |s|, idx);
    if c - offset > TAG_SIZE {
      tag := ReadAt(buf, s, idx, offset, TAG_SIZE);
    } else {
      var tagLengthCopied := c - offset;
      tag := ReadAt(buf, s, idx, offset, tagLengthCopied);
      PosNext(c, idx);
      IndexInRange(c, |s|, idx + 1);
      var rest := ReadAt(buf, s, idx + 1, 0, TAG_SIZE - tagLengthCopied);
      tag := tag + rest;
    }
  }

  /** Output extraction: whatever the engine left in the output chunks, the client gets
      the bytes behind the AAD as data and, for encryption, the 16 after them as tag. */
  method ExtractOutput(buf: array2<byte>, enc: bool, aadLen: nat, dataLen: nat, ghost s: seq<byte>)
    returns (data: seq<byte>, tag: seq<byte>)
    requires buf.Length1 >= TAG_SIZE && buf.Length0 == Nents(buf.Length1, |s|) && Holds(buf, s)
    requires |s| == aadLen + dataLen + (if enc then TAG_SIZE else 0)
    ensures data == s[aadLen..aadLen + dataLen]
    ensures enc ==> tag == s[aadLen + dataLen..]
  {
    var c := buf.Length1;
    DivModFacts(aadLen, c);
    var idx, offset := aadLen / c, aadLen % c;
    var copied;
    copied, data, idx, offset := TakeFirst(buf, s, dataLen, idx, offset, aadLen);
    if dataLen - copied != 0 {
      var rest;
      rest, idx, offset := TakeWhole(buf, s, aadLen + copied, dataLen - copied, idx);
      data := data + rest;
    }
    tag := [];
    if enc {
      tag := TakeTag(buf, s, idx, offset, aadLen + dataLen);
    }
  }

  /** Laying out and taking out again is the identity, for all lengths and also when
      the tag is split over two chunks. */
  method RoundTrip(c: nat, aad: seq<byte>, data: seq<byte>, tag: seq<byte>)
    returns (status: Status, data': seq<byte>, tag': seq<byte>)
    requires c >= TAG_SIZE && |tag| == TAG_SIZE
    ensures status == if Nents(c, |aad| + |data| + TAG_SIZE) > NVVSE_MAX_CHUNKS then Enomem else Ok
    ensures status == Ok ==> data' == data && tag' == tag
  {
    data', tag' := [], [];
    var buf;
    status, buf := LayoutInput(c, false, aad, data, tag);
    if status == Ok {
      data', tag' := ExtractOutput(buf, true, |aad|, |data|, aad + data + tag);
    }
  }
}
