/** Bytes, concatenation of pieces, and the division facts that the block and
    chunk arithmetic of the drivers rests on. */
module Bytes {

  newtype byte = x: int | 0 <= x < 256

  const TWO32: nat := 0x1_0000_0000

  function Min(a: int, b: int): int {
    if a <= b then a else b
  }

  function Max(a: int, b: int): int {
    if a >= b then a else b
  }

  /** Frequency tables are sorted. */
  predicate Ascending(table: seq<nat>) {
    forall i, j :: 0 <= i < j < |table| ==> table[i] < table[j]
  }

  lemma Regroup<T>(a: seq<T>, b: seq<T>, c: seq<T>)
    ensures a + (b + c) == (a + b) + c && |a + (b + c)| == |a| + |b| + |c|
  {
  }

  /** What follows a place stays equal when the place moves on. */
  lemma RestStays<T>(a: seq<T>, b: seq<T>, i: nat, j: nat)
    requires i <= j <= |a| == |b| && a[i..] == b[i..]
    ensures a[j..] == b[j..]
  {
    assert a[j..] == a[i..][j - i..] && b[j..] == b[i..][j - i..];
  }

  /** The bytes of a scatterlist, in order. */
  function Flatten<T>(pieces: seq<seq<T>>): seq<T> {
    if pieces == [] then [] else pieces[0] + Flatten(pieces[1..])
  }

  lemma FlattenOne<T>(s: seq<T>)
    ensures Flatten([s]) == s
  {
  }

  lemma {:induction false} FlattenAppend<T>(a: seq<seq<T>>, b: seq<seq<T>>)
    ensures Flatten(a + b) == Flatten(a) + Flatten(b)
  {
    if a == [] {
      assert a + b == b;
    } else {
      assert (a + b)[1..] == a[1..] + b;
      FlattenAppend(a[1..], b);
    }
  }

  /** Pieces of whole cipher blocks. */
  predicate WholeBlocks(pieces: seq<seq<byte>>) {
    forall i :: 0 <= i < |pieces| ==> |pieces[i]| % 16 == 0
  }

  /** A multiple of d that lies strictly between -d and d is zero. */
  lemma SmallMultiple(k: int, d: int)
    requires -d < k * d < d
    ensures k == 0
  {
  }

  /** Quotient and remainder are the only way to write x as q * d + r. */
  lemma DivModUnique(x: int, d: int, q: int, r: int)
    requires 0 <= r < d && x == q * d + r
    ensures x / d == q && x % d == r
  {
    var k := q - x / d;
    assert k * d == q * d - x / d * d;
    SmallMultiple(k, d);
  }

  lemma DivModFacts(x: int, d: int)
    requires d > 0
    ensures x == x / d * d + x % d && 0 <= x % d < d
    ensures (x / d * d) % d == 0
  {
  }

  /** Adding a multiple of d to b moves the quotient and keeps the remainder. */
  lemma AddMultiple(a: int, b: int, d: int)
    requires d > 0 && a % d == 0
    ensures (a + b) % d == b % d && (a + b) / d == a / d + b / d
  {
    assert a == a / d * d;
    assert b == b / d * d + b % d;
    assert (a / d + b / d) * d == a / d * d + b / d * d;
    DivModUnique(a + b, d, a / d + b / d, b % d);
  }

  /** The remainder by repeated subtraction: n % d, without nonlinear terms. */
  function Rem(n: nat, d: nat): (r: nat)
    requires d > 0
    ensures r < d && r <= n
    decreases n
  {
    if n < d then n else Rem(n - d, d)
  }

  /** The largest multiple of d that is at most n. */
  function Whole(n: nat, d: nat): nat
    requires d > 0
  {
    n - Rem(n, d)
  }

  lemma {:induction false} RemIsMod(n: nat, d: nat)
    requires d > 0
    ensures Rem(n, d) == n % d && Whole(n, d) == n / d * d
    decreases n
  {
    if n < d {
      DivModUnique(n, d, 0, n);
    } else {
      RemIsMod(n - d, d);
      DivModUnique(d, d, 1, 0);
      AddMultiple(d, n - d, d);
    }
    DivModFacts(n, d);
  }

  lemma {:induction false} RemAdd(a: nat, b: nat, d: nat)
    requires d > 0 && Rem(a, d) == 0
    ensures Rem(a + b, d) == Rem(b, d)
    decreases a
  {
    if a >= d {
      RemAdd(a - d, b, d);
    }
  }

  lemma {:induction false} WholeFacts(n: nat, d: nat)
    requires d > 0
    ensures Rem(Whole(n, d), d) == 0 && Rem(0, d) == 0 && Rem(d, d) == 0
    ensures n < d <==> Whole(n, d) == 0
    ensures n >= d ==> Whole(n, d) >= d
    decreases n
  {
    assert Rem(0, d) == 0;
    if n >= d {
      WholeFacts(n - d, d);
      RemAdd(d, Whole(n - d, d), d);
    }
  }

  /** Taking k, a multiple of d, out of n leaves the other whole part. */
  lemma WholeAfter(n: nat, k: nat, d: nat)
    requires d > 0 && Rem(k, d) == 0 && k <= n
    ensures Whole(n - k, d) == Whole(n, d) - k && Rem(n - k, d) == Rem(n, d)
  {
    RemAdd(k, n - k, d);
  }

  lemma MulMonotone(a: int, b: int, d: int)
    requires a <= b && 0 <= d
    ensures a * d <= b * d
  {
  }
}
