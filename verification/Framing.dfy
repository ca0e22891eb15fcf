/** The STREAM wire format as pure functions: what a whole stream seals and opens to, and
    what an engine has released after only a prefix of its input. */
module Framing {
  import opened Bytes
  import opened Channels
  import opened Chunking

  // ---- sealing -------------------------------------------------------------

  /** The frames of p, numbered from i. */
  function SealFrom(fc: FrameCipher, i: nat, p: bytes, c: pos): (frames: seq<bytes>)
    ensures |frames| > 0
    decreases |p|
  {
    if |p| <= c then [fc.seal(i, true, p)]
    else [fc.seal(i, false, p[..c])] + SealFrom(fc, i + 1, p[c..], c)
  }

  function Sealed(fc: FrameCipher, p: bytes, c: pos): (frames: seq<bytes>)
    ensures |frames| > 0
  {
    SealFrom(fc, 0, p, c)
  }

  lemma {:induction false} SealedFrameAt(fc: FrameCipher, i: nat, p: bytes, c: pos, k: nat)
    requires k < |Chunks(p, c)|
    ensures |SealFrom(fc, i, p, c)| == |Chunks(p, c)|
    ensures SealFrom(fc, i, p, c)[k] == fc.seal(i + k, k == |Chunks(p, c)| - 1, Chunks(p, c)[k])
    decreases |p|
  {
    if |p| > c {
      SealedFrameAt(fc, i + 1, p[c..], c, if k == 0 then 0 else k - 1);
    }
  }

  /** A sealed stream maps the AEAD over the canonical chunks: frame k is chunk k under
      nonce k, and the flag is set on the final frame alone. */
  lemma SealFromMapsChunks(fc: FrameCipher, i: nat, p: bytes, c: pos)
    ensures |SealFrom(fc, i, p, c)| == |Chunks(p, c)|
    ensures forall k :: 0 <= k < |Chunks(p, c)| ==>
              SealFrom(fc, i, p, c)[k] == fc.seal(i + k, k == |Chunks(p, c)| - 1, Chunks(p, c)[k])
  {
    SealedFrameAt(fc, i, p, c, 0);
    forall k | 0 <= k < |Chunks(p, c)|
      ensures SealFrom(fc, i, p, c)[k] == fc.seal(i + k, k == |Chunks(p, c)| - 1, Chunks(p, c)[k])
    {
      SealedFrameAt(fc, i, p, c, k);
    }
  }

  /** What a sealer that must hold back a possible final chunk has released after r. */
  function SealSoFar(fc: FrameCipher, i: nat, r: bytes, c: pos): (frames: seq<bytes>)
    decreases |r|
  {
    if |r| < 2 * c then [] else [fc.seal(i, false, r[..c])] + SealSoFar(fc, i + 1, r[c..], c)
  }

  /** The input it still holds. */
  function SealTail(r: bytes, c: pos): (held: bytes)
    ensures |held| < 2 * c && |held| <= |r|
    decreases |r|
  {
    if |r| < 2 * c then r else SealTail(r[c..], c)
  }

  /** Input boundaries do not matter: absorbing `more` continues from the held tail. */
  lemma {:induction false} SealSoFarAppend(fc: FrameCipher, i: nat, r: bytes, more: bytes, c: pos)
    ensures SealTail(r + more, c) == SealTail(SealTail(r, c) + more, c)
    ensures SealSoFar(fc, i, r + more, c)
         == SealSoFar(fc, i, r, c)
            + SealSoFar(fc, i + |SealSoFar(fc, i, r, c)|, SealTail(r, c) + more, c)
    decreases |r|
  {
    if |r| >= 2 * c {
      assert (r + more)[..c] == r[..c];
      assert (r + more)[c..] == r[c..] + more;
      SealSoFarAppend(fc, i + 1, r[c..], more, c);
    }
  }

  /** A held chunk goes out as soon as another full chunk follows it. */
  lemma SealStep(fc: FrameCipher, i: nat, held: bytes, more: bytes, c: pos)
    requires |held| == c && |more| >= c
    ensures SealSoFar(fc, i, held + more, c) == [fc.seal(i, false, held)] + SealSoFar(fc, i + 1, more, c)
    ensures SealTail(held + more, c) == SealTail(more, c)
  {
    assert (held + more)[..c] == held && (held + more)[c..] == more;
  }

  /** Ending the input after r completes exactly the sealed stream of r. */
  lemma {:induction false} SealFinish(fc: FrameCipher, i: nat, r: bytes, c: pos)
    ensures SealFrom(fc, i, r, c)
         == SealSoFar(fc, i, r, c) + SealFrom(fc, i + |SealSoFar(fc, i, r, c)|, SealTail(r, c), c)
    decreases |r|
  {
    if |r| >= 2 * c {
      SealFinish(fc, i + 1, r[c..], c);
    }
  }

  /** After n bytes a sealer has released max(0, n / c - 1) frames. */
  lemma {:induction false} SealProgress(fc: FrameCipher, i: nat, r: bytes, c: pos)
    ensures |SealSoFar(fc, i, r, c)| == if |r| < c then 0 else |r| / c - 1
    decreases |r|
  {
    if |r| < c {
    } else if |r| < 2 * c {
      DivUnique(|r|, 1, |r| - c, c);
    } else {
      SealProgress(fc, i + 1, r[c..], c);
      DivStep(|r| - c, c);
    }
  }

  /** Everything released early is part of the sealed stream of every longer input. */
  lemma SealSoFarIsPrefix(fc: FrameCipher, r: bytes, rest: bytes, c: pos)
    ensures SealSoFar(fc, 0, r, c) <= Sealed(fc, r + rest, c)
  {
    SealSoFarAppend(fc, 0, r, rest, c);
    SealFinish(fc, 0, r + rest, c);
  }

  // ---- opening -------------------------------------------------------------

  datatype Verdict = Running | Accepted | Malformed | Unauthentic

  /** The plaintext frames released, in order, and how the run stands. */
  datatype Opened = Opened(out: seq<bytes>, verdict: Verdict)

  function Prepend(out: seq<bytes>, o: Opened): Opened {
    Opened(out + o.out, o.verdict)
  }

  /** Opens bs as frames of w bytes numbered from i. A frame is the last one exactly when
      nothing follows it. */
  function OpenFrom(fc: FrameCipher, i: nat, bs: bytes, w: pos): (o: Opened)
    decreases |bs|
  {
    if |bs| <= w then
      if |bs| < TAG_LEN then Opened([], Malformed)
      else match fc.open(i, true, bs)
           case None => Opened([], Unauthentic)
           case Some(p) => Opened([p], Accepted)
    else match fc.open(i, false, bs[..w])
         case None => Opened([], Unauthentic)
         case Some(p) => Prepend([p], OpenFrom(fc, i + 1, bs[w..], w))
  }

  function Open(fc: FrameCipher, bs: bytes, c: pos): Opened {
    OpenFrom(fc, 0, bs, c + TAG_LEN)
  }

  lemma {:induction false} OpenedFrameAt(fc: FrameCipher, i: nat, bs: bytes, w: pos, k: nat)
    requires k < |OpenFrom(fc, i, bs, w).out|
    ensures k < |Chunks(bs, w)| && (w >= TAG_LEN ==> |Chunks(bs, w)[k]| >= TAG_LEN)
    ensures fc.open(i + k, k == |Chunks(bs, w)| - 1, Chunks(bs, w)[k]) == Some(OpenFrom(fc, i, bs, w).out[k])
    decreases |bs|
  {
    if |bs| <= w || k == 0 {
    } else {
      var p, o := fc.open(i, false, bs[..w]).value, OpenFrom(fc, i + 1, bs[w..], w);
      assert OpenFrom(fc, i, bs, w).out == [p] + o.out;
      OpenedFrameAt(fc, i + 1, bs[w..], w, k - 1);
    }
  }

  lemma {:induction false} OpenStopsAt(fc: FrameCipher, i: nat, bs: bytes, w: pos)
    requires w >= TAG_LEN
    ensures var o, blocks := OpenFrom(fc, i, bs, w), Chunks(bs, w);
            var n := |o.out|;
            match o.verdict
            case Accepted => n == |blocks|
            case Malformed => n == |blocks| - 1 && |blocks[n]| < TAG_LEN
            case Unauthentic =>
              n < |blocks| && |blocks[n]| >= TAG_LEN && fc.open(i + n, n == |blocks| - 1, blocks[n]) == None
            case Running => false
    decreases |bs|
  {
    if |bs| > w && fc.open(i, false, bs[..w]).Some? {
      OpenStopsAt(fc, i + 1, bs[w..], w);
      var n := |OpenFrom(fc, i + 1, bs[w..], w).out|;
      assert |OpenFrom(fc, i, bs, w).out| == n + 1;
      assert n < |Chunks(bs[w..], w)| ==> Chunks(bs, w)[n + 1] == Chunks(bs[w..], w)[n];
    }
  }

  /** Opening takes the blocks of the canonical cut in order, the flag set on the last
      alone, and stops at the first that fails: it accepts exactly when all of them opened. */
  lemma OpenMapsBlocks(fc: FrameCipher, bs: bytes, c: pos)
    ensures var o, blocks := Open(fc, bs, c), Chunks(bs, c + 16);
            var n := |o.out|;
            && n <= |blocks|
            && (forall k :: 0 <= k < n ==>
                  |blocks[k]| >= 16 && fc.open(k, k == |blocks| - 1, blocks[k]) == Some(o.out[k]))
            && match o.verdict
               case Accepted => n == |blocks|
               case Malformed => n == |blocks| - 1 && |blocks[n]| < 16
               case Unauthentic => n < |blocks| && |blocks[n]| >= 16 && fc.open(n, n == |blocks| - 1, blocks[n]) == None
               case Running => false
  {
    var w := c + TAG_LEN;
    var o, blocks := Open(fc, bs, c), Chunks(bs, w);
    OpenStopsAt(fc, 0, bs, w);
    forall k | 0 <= k < |o.out|
      ensures |blocks[k]| >= 16 && fc.open(k, k == |blocks| - 1, blocks[k]) == Some(o.out[k])
    {
      OpenedFrameAt(fc, 0, bs, w, k);
    }
  }

  /** What an opener that holds back a possible final frame has released after r. */
  function OpenSoFar(fc: FrameCipher, i: nat, r: bytes, w: pos): (o: Opened)
    decreases |r|
  {
    if |r| <= w then Opened([], Running)
    else match fc.open(i, false, r[..w])
         case None => Opened([], Unauthentic)
         case Some(p) => Prepend([p], OpenSoFar(fc, i + 1, r[w..], w))
  }

  function OpenTail(r: bytes, w: pos): (held: bytes)
    ensures |held| <= w && (held == [] <==> r == [])
    decreases |r|
  {
    if |r| <= w then r else OpenTail(r[w..], w)
  }

  lemma {:induction false} OpenSoFarAppend(fc: FrameCipher, i: nat, r: bytes, more: bytes, w: pos)
    ensures var o := OpenSoFar(fc, i, r, w);
            OpenSoFar(fc, i, r + more, w)
            == if o.verdict == Running
               then Prepend(o.out, OpenSoFar(fc, i + |o.out|, OpenTail(r, w) + more, w))
               else o
    decreases |r|
  {
    if |r| > w {
      var frame, rest := r[..w], r[w..];
      OpenStep(fc, i, frame, rest, w);
      OpenStep(fc, i, frame, rest + more, w);
      assert r == frame + rest && r + more == frame + (rest + more);
      OpenSoFarAppend(fc, i + 1, rest, more, w);
      match fc.open(i, false, frame) {
        case None =>
        case Some(p) =>
          var o := OpenSoFar(fc, i + 1, rest, w);
          PrependTwice([p], o.out, OpenSoFar(fc, i + 1 + |o.out|, OpenTail(rest, w) + more, w));
      }
    }
  }

  lemma {:induction false} OpenFinish(fc: FrameCipher, i: nat, r: bytes, w: pos)
    ensures var o := OpenSoFar(fc, i, r, w);
            OpenFrom(fc, i, r, w)
            == if o.verdict == Running then Prepend(o.out, OpenFrom(fc, i + |o.out|, OpenTail(r, w), w))
               else o
    decreases |r|
  {
    if |r| > w {
      OpenFinish(fc, i + 1, r[w..], w);
    }
  }

  /** A frame is opened as soon as at least one byte follows it. */
  lemma OpenStep(fc: FrameCipher, i: nat, frame: bytes, more: bytes, w: pos)
    requires |frame| == w && more != []
    ensures OpenTail(frame + more, w) == OpenTail(more, w)
    ensures OpenSoFar(fc, i, frame + more, w)
         == match fc.open(i, false, frame)
            case None => Opened([], Unauthentic)
            case Some(p) => Prepend([p], OpenSoFar(fc, i + 1, more, w))
    ensures OpenFrom(fc, i, frame + more, w)
         == match fc.open(i, false, frame)
            case None => Opened([], Unauthentic)
            case Some(p) => Prepend([p], OpenFrom(fc, i + 1, more, w))
  {
    assert (frame + more)[..w] == frame && (frame + more)[w..] == more;
  }

  lemma PrependTwice(a: seq<bytes>, b: seq<bytes>, o: Opened)
    ensures Prepend(a, Prepend(b, o)) == Prepend(a + b, o)
  {
    assert a + (b + o.out) == (a + b) + o.out;
  }

  /** After n > 0 bytes with no failure an opener has released (n - 1) / w frames. */
  lemma {:induction false} OpenProgress(fc: FrameCipher, i: nat, r: bytes, w: pos)
    requires r != []
    requires OpenSoFar(fc, i, r, w).verdict == Running
    ensures |OpenSoFar(fc, i, r, w).out| == (|r| - 1) / w
    decreases |r|
  {
    if |r| <= w {
      DivSmall(|r| - 1, w);
    } else {
      OpenProgress(fc, i + 1, r[w..], w);
      DivStep(|r| - 1 - w, w);
    }
  }

  /** What is released early is what every continuation releases; and an early rejection
      is final: no continuation would have been accepted. */
  lemma OpenSoFarIsSound(fc: FrameCipher, r: bytes, rest: bytes, c: pos)
    ensures OpenSoFar(fc, 0, r, c + TAG_LEN).out <= Open(fc, r + rest, c).out
    ensures OpenSoFar(fc, 0, r, c + TAG_LEN).verdict != Running ==>
              Open(fc, r + rest, c) == OpenSoFar(fc, 0, r, c + TAG_LEN)
  {
    OpenSoFarAppend(fc, 0, r, rest, c + TAG_LEN);
    OpenFinish(fc, 0, r + rest, c + TAG_LEN);
  }

  // ---- lengths and round trip ----------------------------------------------

  /** Sealing a frame appends exactly one tag. */
  ghost predicate SizedFrames(fc: FrameCipher) {
    forall i: nat, last, p :: |fc.seal(i, last, p)| == |p| + TAG_LEN
  }

  /** A sealed stream has n + 16 * max(1, ceil(n / c)) bytes, and cutting it into blocks
      of c + 16 bytes recovers the sealer's frames. */
  lemma {:induction false} SealedLengthAndReframing(fc: FrameCipher, i: nat, p: bytes, c: pos)
    requires SizedFrames(fc)
    ensures |Flat(SealFrom(fc, i, p, c))| == |p| + 16 * FrameCount(|p|, c)
    ensures Chunks(Flat(SealFrom(fc, i, p, c)), c + 16) == SealFrom(fc, i, p, c)
    decreases |p|
  {
    var frames := SealFrom(fc, i, p, c);
    if |p| <= c {
      FlatSingle(frames[0]);
      ChunkCount(p, c);
    } else {
      var rest := SealFrom(fc, i + 1, p[c..], c);
      SealedLengthAndReframing(fc, i + 1, p[c..], c);
      assert frames[1..] == rest;
      var head, all := frames[0], Flat(frames);
      assert all == head + Flat(rest) && |head| == c + TAG_LEN;
      assert all[..c + TAG_LEN] == head && all[c + TAG_LEN..] == Flat(rest);
      ChunkCount(p, c);
      ChunkCount(p[c..], c);
    }
  }

  /** One tag more than its chunk; full frames but for the last. */
  lemma SealedFrameSize(fc: FrameCipher, p: bytes, c: pos, k: nat)
    requires SizedFrames(fc) && k < |Chunks(p, c)|
    ensures var frames, cs := Sealed(fc, p, c), Chunks(p, c);
            && |frames| == |cs| && |frames[k]| == |cs[k]| + TAG_LEN
            && if k < |cs| - 1 then |cs[k]| == c else |cs[k]| <= c
  {
    SealedFrameAt(fc, 0, p, c, k);
    ChunksAreCanonical(p, c);
  }

  function SealedLength(n: nat, c: pos): nat
  {
    n + TAG_LEN * FrameCount(n, c)
  }

  /** Longer plaintexts have longer streams, so the stream length fixes the plaintext length. */
  lemma SealedLengthStrict(m: nat, n: nat, c: pos)
    ensures m < n <==> SealedLength(m, c) < SealedLength(n, c)
  {
    FrameCountMonotone(Min(m, n), if m <= n then n else m, c);
  }

  lemma FrameCountMonotone(m: nat, n: nat, c: pos)
    requires m <= n
    ensures FrameCount(m, c) <= FrameCount(n, c)
  {
    if m > 0 {
      DivMonotone(m - 1, n - 1, c);
    }
  }

  /** The opener takes back every frame of this sealed stream. */
  ghost predicate Opens(sealer: FrameCipher, opener: FrameCipher, i: nat, p: bytes, c: pos)
  {
    var cs, frames := Chunks(p, c), SealFrom(sealer, i, p, c);
    |frames| == |cs|
    && forall k :: 0 <= k < |cs| ==> opener.open(i + k, k == |cs| - 1, frames[k]) == Some(cs[k])
  }

  lemma OpensTail(sealer: FrameCipher, opener: FrameCipher, i: nat, p: bytes, c: pos)
    requires |p| > c && Opens(sealer, opener, i, p, c)
    ensures Opens(sealer, opener, i + 1, p[c..], c)
  {
    var frames, cs := SealFrom(sealer, i, p, c), Chunks(p, c);
    var rest, cs' := SealFrom(sealer, i + 1, p[c..], c), Chunks(p[c..], c);
    assert frames[1..] == rest && cs[1..] == cs';
    forall k | 0 <= k < |cs'|
      ensures opener.open(i + 1 + k, k == |cs'| - 1, rest[k]) == Some(cs'[k])
    {
      assert opener.open(i + (k + 1), k + 1 == |cs| - 1, frames[k + 1]) == Some(cs[k + 1]);
    }
  }

  /** The first frame of a longer stream, cut off at c + 16 bytes. */
  lemma FirstFrame(fc: FrameCipher, i: nat, p: bytes, c: pos)
    requires |p| > c && SizedFrames(fc)
    ensures var all := Flat(SealFrom(fc, i, p, c));
            && |all| > c + TAG_LEN
            && all[..c + TAG_LEN] == fc.seal(i, false, p[..c])
            && all[c + TAG_LEN..] == Flat(SealFrom(fc, i + 1, p[c..], c))
  {
    var frames, rest := SealFrom(fc, i, p, c), SealFrom(fc, i + 1, p[c..], c);
    assert frames[1..] == rest;
    SealedLengthAndReframing(fc, i + 1, p[c..], c);
  }

  lemma {:induction false} OpenSealed(sealer: FrameCipher, opener: FrameCipher, i: nat, p: bytes, c: pos)
    requires SizedFrames(sealer) && Opens(sealer, opener, i, p, c)
    ensures OpenFrom(opener, i, Flat(SealFrom(sealer, i, p, c)), c + TAG_LEN) == Opened(Chunks(p, c), Accepted)
    decreases |p|
  {
    var frames, cs := SealFrom(sealer, i, p, c), Chunks(p, c);
    assert opener.open(i + 0, 0 == |cs| - 1, frames[0]) == Some(cs[0]);
    if |p| <= c {
      FlatSingle(frames[0]);
    } else {
      OpensTail(sealer, opener, i, p, c);
      OpenSealed(sealer, opener, i + 1, p[c..], c);
      FirstFrame(sealer, i, p, c);
    }
  }

  // ---- streams shorter than a layer's counter range ------------------------

  /** The two ciphers treat the first `limit` frames alike. */
  ghost predicate AgreeBelow(a: FrameCipher, b: FrameCipher, limit: nat) {
    && (forall i: nat, last, p :: i < limit ==> a.seal(i, last, p) == b.seal(i, last, p))
    && (forall i: nat, last, f :: i < limit ==> a.open(i, last, f) == b.open(i, last, f))
  }

  lemma {:induction false} SealAgrees(a: FrameCipher, b: FrameCipher, limit: nat, i: nat, p: bytes, c: pos)
    requires AgreeBelow(a, b, limit) && i + FrameCount(|p|, c) <= limit
    ensures SealFrom(a, i, p, c) == SealFrom(b, i, p, c)
    decreases |p|
  {
    if |p| > c {
      DivStep(|p| - c - 1, c);
      SealAgrees(a, b, limit, i + 1, p[c..], c);
    }
  }

  /** How many of the blocks of n bytes cut at w are long enough to hold a tag. */
  function OpenableCount(n: nat, w: pos): nat
    requires w >= TAG_LEN
  {
    (n + w - TAG_LEN) / w
  }

  lemma OpenableSteps(n: nat, w: pos)
    requires w >= TAG_LEN
    ensures n < TAG_LEN ==> OpenableCount(n, w) == 0
    ensures TAG_LEN <= n <= w ==> OpenableCount(n, w) == 1
    ensures n > w ==> OpenableCount(n, w) == OpenableCount(n - w, w) + 1
  {
    if n < TAG_LEN {
      DivSmall(n + w - TAG_LEN, w);
    } else if n <= w {
      DivUnique(n + w - TAG_LEN, 1, n - TAG_LEN, w);
    } else {
      DivStep(n - w + w - TAG_LEN, w);
    }
  }

  lemma {:induction false} OpenAgrees(a: FrameCipher, b: FrameCipher, limit: nat, i: nat, bs: bytes, w: pos)
    requires w >= TAG_LEN && AgreeBelow(a, b, limit) && i + OpenableCount(|bs|, w) <= limit
    ensures OpenFrom(a, i, bs, w) == OpenFrom(b, i, bs, w)
    decreases |bs|
  {
    OpenableSteps(|bs|, w);
    if |bs| > w {
      OpenAgrees(a, b, limit, i + 1, bs[w..], w);
    }
  }

  lemma {:induction false} OpenedCount(fc: FrameCipher, i: nat, bs: bytes, w: pos)
    requires w >= TAG_LEN
    ensures |OpenFrom(fc, i, bs, w).out| <= OpenableCount(|bs|, w)
    decreases |bs|
  {
    OpenableSteps(|bs|, w);
    if |bs| > w {
      OpenedCount(fc, i + 1, bs[w..], w);
    }
  }

  /** If nothing ever fails to open, every block that can hold a tag is opened. */
  lemma {:induction false} AllOpenCount(fc: FrameCipher, i: nat, bs: bytes, w: pos)
    requires w >= TAG_LEN && forall k: nat, last, f :: fc.open(k, last, f).Some?
    ensures |OpenFrom(fc, i, bs, w).out| == OpenableCount(|bs|, w)
    decreases |bs|
  {
    OpenableSteps(|bs|, w);
    if |bs| > w {
      AllOpenCount(fc, i + 1, bs[w..], w);
    }
  }
}
