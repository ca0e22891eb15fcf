/** Cutting a byte string into frames: the canonical chunk list and its arithmetic. */
module Chunking {
  import opened Bytes

  // ---- division by the frame size ------------------------------------------

  lemma DivStep(n: int, c: pos)
    ensures (n + c) / c == n / c + 1
  {
    assert n + c == (n / c + 1) * c + n % c;
    DivUnique(n + c, n / c + 1, n % c, c);
  }

  lemma DivSmall(n: int, c: pos)
    requires 0 <= n < c
    ensures n / c == 0
  {
    DivUnique(n, 0, n, c);
  }

  lemma DivMonotone(m: nat, n: nat, c: pos)
    requires m <= n
    ensures m / c <= n / c
  {
    if n / c < m / c {
      MulGap(n / c, m / c, c);
    }
  }

  // ---- the canonical chunk list --------------------------------------------

  function Chunks(p: bytes, c: pos): (cs: seq<bytes>)
    ensures |cs| > 0
    decreases |p|
  {
    if |p| <= c then [p] else [p[..c]] + Chunks(p[c..], c)
  }

  /** All chunks full but the last; the last non-empty unless the plaintext is empty. */
  ghost predicate Canonical(cs: seq<bytes>, p: bytes, c: pos) {
    && |cs| > 0
    && Flat(cs) == p
    && (forall k :: 0 <= k < |cs| - 1 ==> |cs[k]| == c)
    && |cs[|cs| - 1]| <= c
    && (cs[|cs| - 1] == [] ==> |cs| == 1)
  }

  /** The chunking is the only one that meets the description. */
  lemma {:induction false} ChunksCanonicalIff(cs: seq<bytes>, p: bytes, c: pos)
    ensures cs == Chunks(p, c) <==> Canonical(cs, p, c)
    decreases |p|, |cs|
  {
    ChunksAreCanonical(p, c);
    if Canonical(cs, p, c) {
      if |cs| == 1 {
        assert cs == [cs[0]];
        FlatSingle(cs[0]);
      } else {
        assert p == cs[0] + Flat(cs[1..]);
        assert |cs[0]| == c && p[..c] == cs[0] && p[c..] == Flat(cs[1..]);
        NonEmptyTail(cs, c);
        ChunksCanonicalIff(cs[1..], p[c..], c);
        assert cs == [cs[0]] + cs[1..];
      }
    }
  }

  lemma NonEmptyTail(cs: seq<bytes>, c: pos)
    requires |cs| > 1 && cs[|cs| - 1] != []
    ensures Flat(cs[1..]) != []
  {
    var front := cs[1..|cs| - 1];
    assert cs[1..] == front + [cs[|cs| - 1]];
    FlatAppend(front, [cs[|cs| - 1]]);
    FlatSingle(cs[|cs| - 1]);
  }

  lemma {:induction false} ChunksAreCanonical(p: bytes, c: pos)
    ensures Canonical(Chunks(p, c), p, c)
    decreases |p|
  {
    if |p| <= c {
      FlatSingle(p);
    } else {
      var cs, rest := Chunks(p, c), Chunks(p[c..], c);
      ChunksAreCanonical(p[c..], c);
      assert cs[1..] == rest;
      assert cs[|cs| - 1] == rest[|rest| - 1];
      assert forall k :: 1 <= k < |cs| ==> cs[k] == rest[k - 1];
    }
  }

  /** max(1, ceil(n / c)). */
  function FrameCount(n: nat, c: pos): nat
  {
    if n == 0 then 1 else (n - 1) / c + 1
  }

  lemma {:induction false} ChunkCount(p: bytes, c: pos)
    ensures |Chunks(p, c)| == FrameCount(|p|, c)
    decreases |p|
  {
    if |p| <= c {
      if p != [] {
        DivSmall(|p| - 1, c);
      }
    } else {
      ChunkCount(p[c..], c);
      DivStep(|p| - c - 1, c);
    }
  }

  /** Where chunk k is, and when it is the final one. */
  lemma {:induction false} ChunkAt(p: bytes, c: pos, k: nat)
    requires k == 0 || k * c < |p|
    ensures k < |Chunks(p, c)|
    ensures k == |Chunks(p, c)| - 1 <==> |p| <= k * c + c
    ensures Chunks(p, c)[k] == p[k * c..Min(k * c + c, |p|)]
    decreases k
  {
    if k == 0 {
      assert 0 * c == 0;
    } else {
      var o := (k - 1) * c;
      assert k * c == o + c;
      ChunkAt(p[c..], c, k - 1);
      var e := Min(o + c, |p| - c);
      assert p[c..][o..e] == p[o + c..e + c];
    }
  }
}
