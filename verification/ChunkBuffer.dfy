/** Kernel buffers made of fixed-size chunks, and the copies in and out of them. */
module ChunkBuffer {
  import opened Bytes

  const NVVSE_CHUNK_SIZE: nat := 1024 * 1024
  const NVVSE_MAX_CHUNKS: nat := 33

  /** Position in the message of byte `offset` of chunk `idx`. */
  function Pos(c: nat, idx: nat, offset: nat): nat {
    idx * c + offset
  }

  lemma PosNext(c: nat, idx: nat)
    ensures Pos(c, idx + 1, 0) == Pos(c, idx, c)
  {
  }

  lemma PosBefore(c: nat, i: nat, j: nat, idx: nat, offset: nat)
    requires j < c && offset <= c
    ensures i < idx ==> Pos(c, i, j) < Pos(c, idx, 0) <= Pos(c, idx, offset)
    ensures i > idx ==> Pos(c, i, j) >= Pos(c, idx, c)
  {
    if i < idx {
      MulMonotone(i + 1, idx, c);
    } else if i > idx {
      MulMonotone(idx + 1, i, c);
    }
  }

  /** The number of chunks `alloc_buf` provides. */
  function Nents(c: nat, size: nat): nat
    requires c > 0
  {
    size / c + 1
  }

  /** A position within the message, or just behind it, lies in an allocated chunk. */
  lemma IndexInRange(c: nat, size: nat, idx: nat)
    requires c > 0 && Pos(c, idx, 0) <= size
    ensures idx < Nents(c, size)
  {
  }

  /** `buf` holds the message s, chunk after chunk. */
  ghost predicate Holds(buf: array2<byte>, s: seq<byte>)
    reads buf
  {
    forall i, j {:trigger buf[i, j]} ::
      0 <= i < buf.Length0 && 0 <= j < buf.Length1 && Pos(buf.Length1, i, j) < |s| ==> buf[i, j] == s[Pos(buf.Length1, i, j)]
  }

  datatype Status = Ok | Einval | Enomem

  /** `tnvvse_crypt_alloc_buf` */
  method AllocBuf(c: nat, size: nat) returns (status: Status, buf: array2<byte>)
    requires c > 0
    ensures status == if Nents(c, size) > NVVSE_MAX_CHUNKS then Enomem else Ok
    ensures status == Ok ==> fresh(buf) && buf.Length0 == Nents(c, size) && buf.Length1 == c
  {
    var nents := size / c + 1;
    if nents > NVVSE_MAX_CHUNKS {
      buf := new byte[0, 0];
      return Enomem, buf;
    }
    buf := new byte[nents, c]((i, j) => 0);
    status := Ok;
  }

  /** Copying the next bytes to where the message ends so far extends the message and
      leaves what was there alone. */
  method Append(buf: array2<byte>, ghost s: seq<byte>, idx: nat, offset: nat, src: seq<byte>)
    requires Holds(buf, s) && idx < buf.Length0 && offset + |src| <= buf.Length1
    requires Pos(buf.Length1, idx, offset) == |s|
    modifies buf
    ensures Holds(buf, s + src)
    ensures forall i, j :: 0 <= i < buf.Length0 && 0 <= j < buf.Length1 && !(i == idx && offset <= j < offset + |src|)
              ==> buf[i, j] == old(buf[i, j])
  {
    forall j | offset <= j < offset + |src| {
      buf[idx, j] := src[j - offset];
    }
    ghost var c := buf.Length1;
    forall i, j | 0 <= i < buf.Length0 && 0 <= j < c && Pos(c, i, j) < |s + src|
      ensures buf[i, j] == (s + src)[Pos(c, i, j)]
    {
      PosBefore(c, i, j, idx, offset);
      PosBefore(c, i, j, idx, offset + |src|);
    }
  }

  /** Copying n bytes out of one chunk. */
  method ReadAt(buf: array2<byte>, ghost s: seq<byte>, idx: nat, offset: nat, n: nat) returns (r: seq<byte>)
    requires Holds(buf, s) && idx < buf.Length0 && offset + n <= buf.Length1
    requires Pos(buf.Length1, idx, offset) + n <= |s|
    ensures r == s[Pos(buf.Length1, idx, offset)..Pos(buf.Length1, idx, offset) + n]
  {
    var c := buf.Length1;
    r := [];
    ghost var p := Pos(c, idx, offset);
    for k := 0 to n
      invariant r == s[p..p + k]
    {
      assert Pos(c, idx, offset + k) == p + k;
      r := r + [buf[idx, offset + k]];
    }
  }

  /** What the engine sees through the scatterlist: chunk i contributes the chunk size,
      the last chunk the remainder of the size. */
  ghost function SgBytes(buf: array2<byte>, size: nat): seq<byte>
    requires buf.Length1 > 0 && buf.Length0 == Nents(buf.Length1, size)
    reads buf
  {
    seq(size, p requires 0 <= p < size reads buf =>
      DivModFacts(p, buf.Length1); IndexInRange(buf.Length1, size, p / buf.Length1);
      buf[p / buf.Length1, p % buf.Length1])
  }

  lemma SgBytesIs(buf: array2<byte>, s: seq<byte>)
    requires buf.Length1 > 0 && buf.Length0 == Nents(buf.Length1, |s|) && Holds(buf, s)
    ensures SgBytes(buf, |s|) == s
  {
    var c := buf.Length1;
    forall p | 0 <= p < |s| ensures SgBytes(buf, |s|)[p] == s[p] {
      DivModFacts(p, c);
      IndexInRange(c, |s|, p / c);
      assert Pos(c, p / c, p % c) == p;
    }
  }

  /** Chunk number i of the user's bytes. */
  method CopyChunk(buf: array2<byte>, user: seq<byte>, i: nat)
    requires i < buf.Length0 && Pos(buf.Length1, i, 0) + buf.Length1 <= |user| && Holds(buf, user[..Pos(buf.Length1, i, 0)])
    modifies buf
    ensures Pos(buf.Length1, i + 1, 0) <= |user| && Holds(buf, user[..Pos(buf.Length1, i + 1, 0)])
  {
    var c := buf.Length1;
    var at := i * c;
    PosNext(c, i);
    Append(buf, user[..at], i, 0, user[at..at + c]);
    assert user[..at] + user[at..at + c] == user[..at + c];
  }

  /** `tnvvse_crypt_copy_user_buf` */
  method CopyUserBuf(kernSize: nat, buf: array2<byte>, user: seq<byte>) returns (status: Status)
    requires buf.Length1 > 0 && buf.Length0 == Nents(buf.Length1, kernSize)
    modifies buf
    ensures status == if |user| > kernSize then Einval else Ok
    ensures status == Ok ==> Holds(buf, user)
  {
    if |user| > kernSize {
      return Einval;
    }
    var i := CopyFullChunks(kernSize, buf, user);
    CopyResidual(kernSize, buf, user, i);
    status := Ok;
  }

  /** The whole chunks of the user's bytes. */
  method CopyFullChunks(kernSize: nat, buf: array2<byte>, user: seq<byte>) returns (i: nat)
    requires buf.Length1 > 0 && buf.Length0 == Nents(buf.Length1, kernSize) && |user| <= kernSize
    modifies buf
    ensures i == |user| / buf.Length1 && Pos(buf.Length1, i, 0) <= |user| && Holds(buf, user[..Pos(buf.Length1, i, 0)])
  {
    var c := buf.Length1;
    var idx := 0;
    i := 0;
    NoChunks(|user|, c);
    while i < |user| / c
      invariant i == idx <= |user| / c && Pos(c, i, 0) <= |user| && Holds(buf, user[..Pos(c, i, 0)])
    {
      FullChunkFits(c, |user|, i);
      IndexInRange(c, kernSize, idx);
      CopyChunk(buf, user, i);
      idx := idx + 1;
      i := i + 1;
    }
  }

  lemma NoChunks(n: nat, c: nat)
    requires c > 0
    ensures Pos(c, 0, 0) == 0 <= n / c
  {
    DivModFacts(n, c);
    if n / c < 0 {
      MulMonotone(n / c, -1, c);
    }
  }

  /** What is left of them, if anything. */
  method CopyResidual(kernSize: nat, buf: array2<byte>, user: seq<byte>, i: nat)
    requires buf.Length1 > 0 && buf.Length0 == Nents(buf.Length1, kernSize) && |user| <= kernSize
    requires i == |user| / buf.Length1 && Pos(buf.Length1, i, 0) <= |user| && Holds(buf, user[..Pos(buf.Length1, i, 0)])
    modifies buf
    ensures Holds(buf, user)
  {
    var c := buf.Length1;
    var at := i * c;
    DivModFacts(|user|, c);
    if |user| % c != 0 {
      IndexInRange(c, kernSize, i);
      Append(buf, user[..at], i, 0, user[at..]);
    }
    assert user[..at] + user[at..] == user;
  }

  lemma FullChunkFits(c: nat, n: nat, i: nat)
    requires c > 0 && i < n / c
    ensures Pos(c, i, c) <= n
  {
    DivModFacts(n, c);
    MulMonotone(i + 1, n / c, c);
  }

  /** `tnvvse_crypt_copy_kern_buf`: what the client gets is what the chunks hold. */
  method CopyKernBuf(userSize: nat, buf: array2<byte>, kernSize: nat, ghost s: seq<byte>)
    returns (status: Status, user: seq<byte>)
    requires buf.Length1 > 0 && buf.Length0 == Nents(buf.Length1, kernSize) && |s| == kernSize && Holds(buf, s)
    ensures status == if kernSize > userSize then Einval else Ok
    ensures status == Ok ==> user == s
  {
    user := [];
    if kernSize > userSize {
      return Einval, user;
    }
    var c := buf.Length1;
    var i, idx := 0, 0;
    DivModFacts(kernSize, c);
    while i < kernSize / c
      invariant i == idx <= kernSize / c && Pos(c, i, 0) <= kernSize && user == s[..Pos(c, i, 0)]
    {
      FullChunkFits(c, kernSize, i);
      IndexInRange(c, kernSize, idx);
      var piece := ReadAt(buf, s, idx, 0, c);
      PosNext(c, i);
      user := user + piece;
      idx := idx + 1;
      i := i + 1;
    }
    if kernSize % c != 0 {
      IndexInRange(c, kernSize, idx);
      var piece := ReadAt(buf, s, idx, 0, kernSize % c);
      user := user + piece;
    }
    assert s[..kernSize] == s;
    status := Ok;
  }
}
