/** What becomes of integrity and of released-prefix safety once a counter has wrapped, and
    hence exactly when each of them holds. */
module LongStreams {
  import opened Bytes
  import opened Channels
  import opened Chunking
  import opened Framing
  import opened Layers
  import opened Integrity

  /** A Rust run ends before its 64-bit counter does, so no longer stream exists. */
  predicate Producible(s: SealedStream) {
    s.layer == Rust ==> FramesIn(s) <= TWO64
  }

  /** The hypotheses about one opener and the stream sealed under its key. */
  ghost predicate Setting(aead: Aead, issued: map<bytes, SealedStream>, opener: Channel) {
    && Sized(aead) && Authentic(aead, issued) && opener.aead == aead
    && opener.key in issued && opener.ad == issued[opener.key].ad
  }

  // ---- which frames open where ---------------------------------------------

  lemma FrameLengths(aead: Aead, key: bytes, s: SealedStream, m: nat)
    requires Sized(aead) && m < FramesIn(s)
    ensures |FramesOf(aead, key, s)| == |Chunks(s.p, s.c)| == FramesIn(s)
    ensures |FramesOf(aead, key, s)[m]| == |Chunks(s.p, s.c)[m]| + TAG_LEN
    ensures if m < FramesIn(s) - 1 then |Chunks(s.p, s.c)[m]| == s.c else |Chunks(s.p, s.c)[m]| <= s.c
  {
    ChunkCount(s.p, s.c);
    SizedCipher(Sealer(aead, key, s));
    SealedFrameSize(Sealer(aead, key, s).Cipher(), s.p, s.c, m);
  }

  /** Frame m opens at position k if sealer and opener give the two the same number. */
  lemma IssuedFrameOpens(aead: Aead, issued: map<bytes, SealedStream>, opener: Channel, fc: FrameCipher,
                         m: nat, k: nat)
    requires Setting(aead, issued, opener) && Implements(opener, fc)
    requires var s := issued[opener.key]; m < FramesIn(s) && Number(s.layer, m) == Number(opener.layer, k)
    ensures var s := issued[opener.key];
            var n, frames, cs := FramesIn(s), FramesOf(aead, opener.key, s), Chunks(s.p, s.c);
            && |frames| == |cs| == n && |frames[m]| == |cs[m]| + TAG_LEN
            && (if m < n - 1 then |cs[m]| == s.c else |cs[m]| <= s.c)
            && fc.open(k, m == n - 1, frames[m]) == Some(cs[m])
  {
    var s := issued[opener.key];
    var last := m == FramesIn(s) - 1;
    FrameLengths(aead, opener.key, s, m);
    NonceOfNumber(Sealer(aead, opener.key, s), m, last);
    NonceOfNumber(opener, k, last);
    var frame := FramesOf(aead, opener.key, s)[m];
    assert IsFrame(aead, opener.key, s, m, opener.Nonce(k, last), opener.ad, frame);
    assert opener.OpenAt(k, last, frame) == aead.open(opener.key, opener.Nonce(k, last), opener.ad, frame);
  }

  /** And nothing else opens there. */
  lemma OpenedIsIssued(aead: Aead, issued: map<bytes, SealedStream>, opener: Channel, k: nat, last: bool, ct: bytes)
    returns (m: nat)
    requires Authentic(aead, issued) && opener.aead == aead
    requires opener.key in issued && Producible(issued[opener.key])
    requires opener.Cipher().open(k, last, ct).Some? && Number(opener.layer, k) < TWO64
    ensures var s := issued[opener.key];
            var cs := Chunks(s.p, s.c);
            && m < |cs| == FramesIn(s) && last == (m == |cs| - 1)
            && Number(s.layer, m) == Number(opener.layer, k)
            && opener.Cipher().open(k, last, ct) == Some(cs[m])
  {
    var s := issued[opener.key];
    var sealer, n := Sealer(aead, opener.key, s), FramesIn(s);
    ChunkCount(s.p, s.c);
    SealFromMapsChunks(sealer.Cipher(), 0, s.p, s.c);
    assert aead.open(opener.key, opener.Nonce(k, last), opener.ad, ct).Some?;
    m :| IsFrame(aead, opener.key, s, m, opener.Nonce(k, last), opener.ad, ct);
    NoncesEqualIff(sealer, opener, m, m == n - 1, k, last);
  }

  /** The final frame of a Dart stream past 2^63 frames opens too early. */
  lemma DartFinalFrame(aead: Aead, issued: map<bytes, SealedStream>, opener: Channel)
    requires Setting(aead, issued, opener) && !InRange(issued, opener.key)
    requires issued[opener.key].layer == Dart
    ensures var s := issued[opener.key];
            var n, frames := FramesIn(s), FramesOf(aead, opener.key, s);
            |frames| == n && Wrapped(n - 1) < n - 1 && opener.Cipher().open(Wrapped(n - 1), true, frames[n - 1]).Some?
  {
    var n := FramesIn(issued[opener.key]);
    IssuedFrameOpens(aead, issued, opener, opener.Cipher(), n - 1, Wrapped(n - 1));
  }

  /** The final frame of a Rust stream past 2^63 frames does not open for Dart. */
  lemma RustFinalFrame(aead: Aead, issued: map<bytes, SealedStream>, opener: Channel, frame: bytes)
    requires Authentic(aead, issued) && opener.aead == aead && opener.key in issued
    requires InRange(issued, opener.key) && !InCommonRange(issued, opener)
    ensures opener.Cipher().open(FramesIn(issued[opener.key]) - 1, true, frame) == None
  {
    var n := FramesIn(issued[opener.key]);
    if opener.Cipher().open(n - 1, true, frame).Some? {
      var m := OpenedIsIssued(aead, issued, opener, n - 1, true, frame);
      assert false;
    }
  }

  /** Frame-by-frame control is had exactly below the limit of the two layers. */
  lemma GenuineIff(aead: Aead, issued: map<bytes, SealedStream>, opener: Channel)
    requires Setting(aead, issued, opener) && Producible(issued[opener.key])
    ensures var s := issued[opener.key];
            Genuine(opener.Cipher(), FramesOf(aead, opener.key, s), Chunks(s.p, s.c))
            <==> FramesIn(s) <= FrameLimit(s.layer, opener.layer)
  {
    var s := issued[opener.key];
    ChunkCount(s.p, s.c);
    if InCommonRange(issued, opener) {
      AuthenticIsGenuine(aead, issued, opener);
    } else if !InRange(issued, opener.key) {
      DartFinalFrame(aead, issued, opener);
    } else {
      var frames := FramesOf(aead, opener.key, s);
      RustFinalFrame(aead, issued, opener, frames[|frames| - 1]);
    }
  }

  // ---- streams put together from genuine frames ----------------------------

  /** Full frames, each of which opens at its position from i on. */
  ghost predicate EachOpens(fc: FrameCipher, i: nat, frames: seq<bytes>, out: seq<bytes>, w: pos) {
    && |frames| == |out|
    && forall k :: 0 <= k < |frames| ==> |frames[k]| == w && fc.open(i + k, false, frames[k]) == Some(out[k])
  }

  lemma EachOpensTail(fc: FrameCipher, i: nat, frames: seq<bytes>, out: seq<bytes>, w: pos)
    requires frames != [] && EachOpens(fc, i, frames, out, w)
    ensures |frames[0]| == w && fc.open(i, false, frames[0]) == Some(out[0])
    ensures EachOpens(fc, i + 1, frames[1..], out[1..], w)
  {
    assert fc.open(i + 0, false, frames[0]) == Some(out[0]);
    forall k | 0 <= k < |frames| - 1
      ensures fc.open(i + 1 + k, false, frames[1..][k]) == Some(out[1..][k])
    {
      assert fc.open(i + (k + 1), false, frames[k + 1]) == Some(out[k + 1]);
    }
  }

  /** They are all released, whatever follows. */
  lemma {:induction false} AllOpen(fc: FrameCipher, i: nat, frames: seq<bytes>, out: seq<bytes>, rest: bytes, w: pos)
    requires EachOpens(fc, i, frames, out, w) && rest != []
    ensures OpenFrom(fc, i, Flat(frames) + rest, w) == Prepend(out, OpenFrom(fc, i + |frames|, rest, w))
    decreases |frames|
  {
    if frames == [] {
      assert Flat(frames) + rest == rest;
    } else {
      EachOpensTail(fc, i, frames, out, w);
      AllOpen(fc, i + 1, frames[1..], out[1..], rest, w);
      FirstOpens(fc, i, frames[0], Flat(frames[1..]) + rest, out[0], w);
      assert Flat(frames) + rest == frames[0] + (Flat(frames[1..]) + rest);
      assert out == [out[0]] + out[1..];
      PrependTwice([out[0]], out[1..], OpenFrom(fc, i + |frames|, rest, w));
    }
  }

  lemma FirstOpens(fc: FrameCipher, i: nat, frame: bytes, more: bytes, out: bytes, w: pos)
    requires |frame| == w && fc.open(i, false, frame) == Some(out) && more != []
    ensures OpenFrom(fc, i, frame + more, w) == Prepend([out], OpenFrom(fc, i + 1, more, w))
  {
    OpenStep(fc, i, frame, more, w);
  }

  /** The pieces before the number that piece m passes for, and piece m. */
  function Spliced(pieces: seq<bytes>, m: nat): seq<bytes>
    requires m < |pieces|
  {
    pieces[..Wrapped(m)] + [pieces[m]]
  }

  /** As many pieces as one likes, piece after piece by its wrapped number. */
  function Replayed(pieces: seq<bytes>, count: nat): seq<bytes>
    requires |pieces| > TWO63
  {
    seq(count, k requires 0 <= k < count => pieces[Wrapped(k)])
  }

  /** The byte string that makes an opener release frame m in the place of another: the
      spliced frames, the final one as such, any other with a byte after it. */
  function SplicedInput(frames: seq<bytes>, m: nat): bytes
    requires m < |frames|
  {
    Flat(Spliced(frames, m)) + if m == |frames| - 1 then [] else [0]
  }

  lemma SpliceRuns(fc: FrameCipher, frames: seq<bytes>, cs: seq<bytes>, m: nat, w: pos)
    requires m < |frames| == |cs| && (if m == |frames| - 1 then TAG_LEN <= |frames[m]| <= w else |frames[m]| == w)
    requires forall k :: 0 <= k < Wrapped(m) ==> |frames[k]| == w && fc.open(k, false, frames[k]) == Some(cs[k])
    requires fc.open(Wrapped(m), m == |frames| - 1, frames[m]) == Some(cs[m])
    ensures OpenFrom(fc, 0, SplicedInput(frames, m), w)
         == Opened(Spliced(cs, m), if m == |frames| - 1 then Accepted else Malformed)
  {
    var j, piece := Wrapped(m), frames[m];
    FlatAppend(frames[..j], [piece]);
    FlatSingle(piece);
    var rest := if m == |frames| - 1 then piece else piece + [0];
    assert SplicedInput(frames, m) == Flat(frames[..j]) + rest;
    AllOpen(fc, 0, frames[..j], cs[..j], rest, w);
    if m < |frames| - 1 {
      OpenStep(fc, j, piece, [0], w);
    }
  }

  /** Either layer releases frame m of a Dart stream at the position of its wrapped number,
      and takes it for the end of the stream if it is the final one. */
  lemma SpliceOpens(aead: Aead, issued: map<bytes, SealedStream>, opener: Channel, m: nat)
    requires Setting(aead, issued, opener)
    requires issued[opener.key].layer == Dart && m < FramesIn(issued[opener.key])
    ensures var s := issued[opener.key];
            var n, frames, cs := FramesIn(s), FramesOf(aead, opener.key, s), Chunks(s.p, s.c);
            && |frames| == |cs| == n
            && Open(opener.Cipher(), SplicedInput(frames, m), s.c)
               == Opened(Spliced(cs, m), if m == n - 1 then Accepted else Malformed)
  {
    var s, fc := issued[opener.key], opener.Cipher();
    var frames, cs, w := FramesOf(aead, opener.key, s), Chunks(s.p, s.c), s.c + TAG_LEN;
    IssuedFrameOpens(aead, issued, opener, fc, m, Wrapped(m));
    forall k | 0 <= k < Wrapped(m)
      ensures |frames[k]| == w && fc.open(k, false, frames[k]) == Some(cs[k])
    {
      IssuedFrameOpens(aead, issued, opener, fc, k, k);
    }
    SpliceRuns(fc, frames, cs, m, w);
  }

  lemma ReplayRuns(fc: FrameCipher, frames: seq<bytes>, cs: seq<bytes>, count: nat, w: pos)
    requires |frames| == |cs| > TWO63
    requires forall k: nat ::
               |frames[Wrapped(k)]| == w && fc.open(k, false, frames[Wrapped(k)]) == Some(cs[Wrapped(k)])
    requires w > 1
    ensures OpenFrom(fc, 0, Flat(Replayed(frames, count)) + [0], w) == Opened(Replayed(cs, count), Malformed)
  {
    AllOpen(fc, 0, Replayed(frames, count), Replayed(cs, count), [0], w);
  }

  /** A Dart opener releases the frames of a longer stream of either layer over and over. */
  lemma ReplayOpens(aead: Aead, issued: map<bytes, SealedStream>, opener: Channel, count: nat)
    requires Setting(aead, issued, opener)
    requires opener.layer == Dart && FramesIn(issued[opener.key]) > TWO63
    ensures var s := issued[opener.key];
            var frames, cs := FramesOf(aead, opener.key, s), Chunks(s.p, s.c);
            && |frames| == |cs| == FramesIn(s)
            && Open(opener.Cipher(), Flat(Replayed(frames, count)) + [0], s.c) == Opened(Replayed(cs, count), Malformed)
  {
    var s, fc := issued[opener.key], opener.Cipher();
    var frames, cs, w := FramesOf(aead, opener.key, s), Chunks(s.p, s.c), s.c + TAG_LEN;
    FrameLengths(aead, opener.key, s, 0);
    forall k: nat
      ensures |frames[Wrapped(k)]| == w && fc.open(k, false, frames[Wrapped(k)]) == Some(cs[Wrapped(k)])
    {
      IssuedFrameOpens(aead, issued, opener, fc, Wrapped(k), k);
    }
    ReplayRuns(fc, frames, cs, count, w);
  }

  // ---- whole-stream integrity ----------------------------------------------

  /** Leaving out pieces before the last one shows. */
  lemma GapShows(pieces: seq<bytes>, j: nat)
    requires j < |pieces| - 1 && pieces[j] != []
    ensures Flat(pieces[..j]) + pieces[|pieces| - 1] != Flat(pieces)
  {
    var front, last := pieces[..|pieces| - 1], pieces[|pieces| - 1];
    FlatTake(pieces, |pieces| - 1);
    assert pieces[..|pieces| - 1 + 1] == pieces;
    DroppedPieceShortens(front, j);
    assert front[..j] == pieces[..j];
    assert |Flat(pieces)| == |Flat(front)| + |last|;
  }

  lemma DroppedPieceShortens(pieces: seq<bytes>, j: nat)
    requires j < |pieces| && pieces[j] != []
    ensures |Flat(pieces[..j])| < |Flat(pieces)|
  {
    FlatSplit(pieces, j);
    FlatDrop(pieces, j);
  }

  lemma SpliceShows(pieces: seq<bytes>)
    requires |pieces| > TWO63 && pieces[Wrapped(|pieces| - 1)] != []
    ensures Flat(Spliced(pieces, |pieces| - 1)) != Flat(pieces)
  {
    var n := |pieces|;
    FlatAppend(pieces[..Wrapped(n - 1)], [pieces[n - 1]]);
    FlatSingle(pieces[n - 1]);
    GapShows(pieces, Wrapped(n - 1));
  }

  /** Once the Dart counter has wrapped, a truncated stream is accepted, by either layer: the
      frames before the number the final one passes for, and the final one. It is not the
      stream that was sealed, and what it yields is not its plaintext. */
  lemma LongDartStreamTruncates(aead: Aead, issued: map<bytes, SealedStream>, opener: Channel)
    requires Setting(aead, issued, opener)
    requires issued[opener.key].layer == Dart && !InRange(issued, opener.key)
    ensures var s := issued[opener.key];
            var frames, cs, m := FramesOf(aead, opener.key, s), Chunks(s.p, s.c), FramesIn(s) - 1;
            && |frames| == |cs| == m + 1
            && Open(opener.Cipher(), Flat(Spliced(frames, m)), s.c) == Opened(Spliced(cs, m), Accepted)
            && Flat(Spliced(frames, m)) != Flat(frames)
            && Flat(Spliced(cs, m)) != s.p
  {
    var s := issued[opener.key];
    var frames, cs, m := FramesOf(aead, opener.key, s), Chunks(s.p, s.c), FramesIn(s) - 1;
    SpliceOpens(aead, issued, opener, m);
    assert SplicedInput(frames, m) == Flat(Spliced(frames, m));
    FrameLengths(aead, opener.key, s, Wrapped(m));
    SpliceShows(frames);
    SpliceShows(cs);
    ChunksAreCanonical(s.p, s.c);
  }

  /** Nothing but the genuine stream is accepted. */
  ghost predicate OnlyAccepts(opener: Channel, genuine: bytes, c: pos) {
    forall bs :: Open(opener.Cipher(), bs, c).verdict == Accepted ==> bs == genuine
  }

  /** The genuine stream is accepted. */
  predicate Accepts(opener: Channel, genuine: bytes, c: pos) {
    Open(opener.Cipher(), genuine, c).verdict == Accepted
  }

  lemma IntegrityInRange(aead: Aead, issued: map<bytes, SealedStream>, opener: Channel)
    requires Setting(aead, issued, opener) && InRange(issued, opener.key)
    ensures var s := issued[opener.key];
            var genuine := Flat(FramesOf(aead, opener.key, s));
            && OnlyAccepts(opener, genuine, s.c)
            && (Accepts(opener, genuine, s.c) <==> FramesIn(s) <= FrameLimit(s.layer, opener.layer))
  {
    var s := issued[opener.key];
    var genuine := Flat(FramesOf(aead, opener.key, s));
    AcceptedIff(aead, issued, opener, genuine, s.c);
    forall bs | Open(opener.Cipher(), bs, s.c).verdict == Accepted
      ensures bs == genuine
    {
      AcceptedIff(aead, issued, opener, bs, s.c);
    }
  }

  lemma IntegrityPastRange(aead: Aead, issued: map<bytes, SealedStream>, opener: Channel)
    requires Setting(aead, issued, opener) && Producible(issued[opener.key]) && !InRange(issued, opener.key)
    ensures var s := issued[opener.key];
            !OnlyAccepts(opener, Flat(FramesOf(aead, opener.key, s)), s.c)
  {
    var s := issued[opener.key];
    LongDartStreamTruncates(aead, issued, opener);
    var cut := Flat(Spliced(FramesOf(aead, opener.key, s), FramesIn(s) - 1));
    assert Open(opener.Cipher(), cut, s.c).verdict == Accepted;
  }

  /** Exactly when integrity holds: nothing but the genuine stream is accepted if and only if
      the sealer's counter did not wrap; and that stream is accepted besides if and only if
      the opener's does not wrap either. */
  lemma IntegrityIff(aead: Aead, issued: map<bytes, SealedStream>, opener: Channel)
    requires Setting(aead, issued, opener) && Producible(issued[opener.key])
    ensures var s := issued[opener.key];
            var genuine := Flat(FramesOf(aead, opener.key, s));
            && (OnlyAccepts(opener, genuine, s.c) <==> FramesIn(s) <= CounterRange(s.layer))
            && (OnlyAccepts(opener, genuine, s.c) && Accepts(opener, genuine, s.c)
                <==> FramesIn(s) <= FrameLimit(s.layer, opener.layer))
  {
    if InRange(issued, opener.key) {
      IntegrityInRange(aead, issued, opener);
    } else {
      IntegrityPastRange(aead, issued, opener);
    }
  }

  // ---- released-prefix safety ----------------------------------------------

  /** Every chunk is the chunk of its wrapped number. */
  predicate ChunksRecur(s: SealedStream) {
    var cs := Chunks(s.p, s.c);
    forall m: nat :: m < |cs| ==> cs[m] == cs[Wrapped(m)]
  }

  /** Every chunk starts the chunk of its wrapped number. Only the final one can be shorter. */
  predicate ChunksRecurInPart(s: SealedStream) {
    var cs := Chunks(s.p, s.c);
    forall m: nat :: m < |cs| ==> cs[m] <= cs[Wrapped(m)]
  }

  /** The streams of which an opening layer releases frames in their own places only. A Dart
      opener numbers any frame past 2^63 as an earlier one. A Rust opener does not, but takes
      the frames a Dart sealer numbered so for the earlier ones. */
  predicate StaysInPlace(s: SealedStream, opener: Layer) {
    match opener
    case Dart => FramesIn(s) <= TWO63
    case Rust => s.layer == Dart ==> ChunksRecur(s)
  }

  /** The same, as far as the concatenated plaintext tells. */
  predicate PlaintextStays(s: SealedStream, opener: Layer) {
    match opener
    case Dart => FramesIn(s) <= TWO63
    case Rust => s.layer == Dart ==> ChunksRecurInPart(s)
  }

  /** Whether the input has ended with bs or not, the frames released are the first of the
      genuine ones. */
  ghost predicate ReleasesOf(opener: Channel, bs: bytes, genuine: seq<bytes>, c: pos) {
    && OpenSoFar(opener.Cipher(), 0, bs, c + TAG_LEN).out <= genuine
    && Open(opener.Cipher(), bs, c).out <= genuine
  }

  /** ... whatever the input. */
  ghost predicate OnlyReleases(opener: Channel, genuine: seq<bytes>, c: pos) {
    forall bs :: ReleasesOf(opener, bs, genuine, c)
  }

  /** Whatever the input, the plaintext released starts the genuine one. */
  ghost predicate OnlyYields(opener: Channel, genuine: bytes, c: pos) {
    forall bs :: Flat(Open(opener.Cipher(), bs, c).out) <= genuine
  }

  /** If what opens at each position is the chunk of that position, and at some position
      nothing opens, then what is released is a prefix of the chunks. */
  lemma {:induction false} ReleasedInPlace(fc: FrameCipher, cs: seq<bytes>, limit: nat, i: nat, bs: bytes, w: pos)
    requires i <= limit <= |cs|
    requires forall k: nat, last, ct :: k < limit && fc.open(k, last, ct).Some? ==> fc.open(k, last, ct) == Some(cs[k])
    requires forall last, ct :: fc.open(limit, last, ct) == None
    ensures OpenFrom(fc, i, bs, w).out <= cs[i..]
    decreases |bs|
  {
    if |bs| > w && fc.open(i, false, bs[..w]).Some? {
      assert i < limit;
      ReleasedInPlace(fc, cs, limit, i + 1, bs[w..], w);
      FlatDrop(cs, i);
    }
  }

  /** A final frame may open to the start of the chunk only: nothing is released after it. */
  lemma {:induction false} YieldedInPlace(fc: FrameCipher, cs: seq<bytes>, limit: nat, i: nat, bs: bytes, w: pos)
    requires i <= limit <= |cs|
    requires forall k: nat, ct :: k < limit && fc.open(k, false, ct).Some? ==> fc.open(k, false, ct) == Some(cs[k])
    requires forall k: nat, ct :: k < limit && fc.open(k, true, ct).Some? ==> fc.open(k, true, ct).value <= cs[k]
    requires forall last, ct :: fc.open(limit, last, ct) == None
    ensures Flat(OpenFrom(fc, i, bs, w).out) <= Flat(cs[i..])
    decreases |bs|
  {
    var o := OpenFrom(fc, i, bs, w);
    if o.out != [] {
      assert i < limit;
      FlatDrop(cs, i);
      if |bs| > w {
        YieldedInPlace(fc, cs, limit, i + 1, bs[w..], w);
        assert o.out[1..] == OpenFrom(fc, i + 1, bs[w..], w).out;
      } else {
        FlatSingle(o.out[0]);
      }
    }
  }

  /** A chunk that is not the final one starts no other chunk without being it. */
  lemma PartialChunkIsFinal(s: SealedStream, m: nat)
    requires FramesIn(s) > TWO63 && m < FramesIn(s) - 1 && ChunksRecurInPart(s)
    ensures FramesIn(s) == |Chunks(s.p, s.c)| && Chunks(s.p, s.c)[m] == Chunks(s.p, s.c)[Wrapped(m)]
  {
    ChunkCount(s.p, s.c);
    ChunksAreCanonical(s.p, s.c);
    var cs := Chunks(s.p, s.c);
    assert |cs[m]| == s.c && |cs[Wrapped(m)]| == s.c;
  }

  /** The frame a Rust opener finds at a position is one that Dart gave that number. */
  lemma RustFinds(aead: Aead, issued: map<bytes, SealedStream>, opener: Channel, k: nat, last: bool, ct: bytes)
    returns (m: nat)
    requires Authentic(aead, issued) && opener.aead == aead && opener.layer == Rust
    requires opener.key in issued && issued[opener.key].layer == Dart && k <= TWO63
    requires opener.Cipher().open(k, last, ct).Some?
    ensures var cs := Chunks(issued[opener.key].p, issued[opener.key].c);
            && m < |cs| == FramesIn(issued[opener.key]) && last == (m == |cs| - 1)
            && Wrapped(m) == k && opener.Cipher().open(k, last, ct) == Some(cs[m])
  {
    m := OpenedIsIssued(aead, issued, opener, k, last, ct);
  }

  /** Streams within both counter ranges stay in place. */
  lemma InRangeStays(s: SealedStream, opener: Layer)
    requires FramesIn(s) <= FrameLimit(s.layer, opener)
    ensures Producible(s) && StaysInPlace(s, opener) && PlaintextStays(s, opener)
  {
    ChunkCount(s.p, s.c);
  }

  lemma ReleasesInPlace(aead: Aead, issued: map<bytes, SealedStream>, opener: Channel, bs: bytes, c': pos)
    requires Authentic(aead, issued) && opener.aead == aead && opener.key in issued
    requires opener.ad == issued[opener.key].ad && Producible(issued[opener.key])
    requires StaysInPlace(issued[opener.key], opener.layer)
    ensures ReleasesOf(opener, bs, Chunks(issued[opener.key].p, issued[opener.key].c), c')
  {
    OpenSoFarIsSound(opener.Cipher(), bs, [], c');
    assert bs + [] == bs;
    var s, fc := issued[opener.key], opener.Cipher();
    if InCommonRange(issued, opener) {
      ReleasedPrefixSafety(aead, issued, opener, bs, c');
    } else {
      var cs := Chunks(s.p, s.c);
      ChunkCount(s.p, s.c);
      forall k: nat, last, ct | k <= TWO63 && fc.open(k, last, ct).Some?
        ensures k < TWO63 && fc.open(k, last, ct) == Some(cs[k])
      {
        var m := RustFinds(aead, issued, opener, k, last, ct);
      }
      ReleasedInPlace(fc, cs, TWO63, 0, bs, c' + TAG_LEN);
      assert cs[0..] == cs;
    }
  }

  lemma YieldsInPlace(aead: Aead, issued: map<bytes, SealedStream>, opener: Channel, bs: bytes, c': pos)
    requires Authentic(aead, issued) && opener.aead == aead && opener.key in issued
    requires opener.ad == issued[opener.key].ad && Producible(issued[opener.key])
    requires PlaintextStays(issued[opener.key], opener.layer)
    ensures Flat(Open(opener.Cipher(), bs, c').out) <= issued[opener.key].p
  {
    var s, fc := issued[opener.key], opener.Cipher();
    var cs := Chunks(s.p, s.c);
    ChunksAreCanonical(s.p, s.c);
    if InCommonRange(issued, opener) {
      ReleasedPrefixSafety(aead, issued, opener, bs, c');
      FlatPrefix(Open(fc, bs, c').out, cs);
    } else {
      ChunkCount(s.p, s.c);
      forall k: nat, last, ct | k <= TWO63 && fc.open(k, last, ct).Some?
        ensures k < TWO63 && fc.open(k, last, ct).value <= cs[k] && (!last ==> fc.open(k, last, ct) == Some(cs[k]))
      {
        var m := RustFinds(aead, issued, opener, k, last, ct);
        if !last {
          PartialChunkIsFinal(s, m);
        }
      }
      YieldedInPlace(fc, cs, TWO63, 0, bs, c' + TAG_LEN);
      assert cs[0..] == cs;
    }
  }

  /** A spliced list starts the list only if the piece spliced in starts the piece it replaces. */
  lemma SplicedStarts(pieces: seq<bytes>, m: nat, c: pos)
    requires m < |pieces| && (forall k :: 0 <= k < |pieces| - 1 ==> |pieces[k]| == c) && |pieces[m]| <= c
    requires Flat(Spliced(pieces, m)) <= Flat(pieces)
    ensures pieces[m] <= pieces[Wrapped(m)]
  {
    var j := Wrapped(m);
    if j < m {
      FlatAppend(pieces[..j], [pieces[m]]);
      FlatSingle(pieces[m]);
      FlatSplit(pieces, j);
      FlatDrop(pieces, j);
      var head, rest := Flat(pieces[..j]), pieces[j] + Flat(pieces[j + 1..]);
      assert pieces[m] == (head + pieces[m])[|head|..];
      assert pieces[m] <= rest;
    }
  }

  lemma SplicedPlaintextDiffers(s: SealedStream, m: nat)
    requires m < |Chunks(s.p, s.c)| && !(Chunks(s.p, s.c)[m] <= Chunks(s.p, s.c)[Wrapped(m)])
    ensures !(Flat(Spliced(Chunks(s.p, s.c), m)) <= s.p)
  {
    ChunksAreCanonical(s.p, s.c);
    if Flat(Spliced(Chunks(s.p, s.c), m)) <= s.p {
      SplicedStarts(Chunks(s.p, s.c), m, s.c);
    }
  }

  lemma {:induction false} FullLength(pieces: seq<bytes>, c: pos)
    requires forall k :: 0 <= k < |pieces| ==> |pieces[k]| == c
    ensures |Flat(pieces)| == |pieces| * c
  {
    if pieces != [] {
      FullLength(pieces[1..], c);
    }
  }

  /** Replaying one chunk more than there are yields more than the plaintext. */
  lemma ReplayedIsLonger(s: SealedStream)
    requires FramesIn(s) > TWO63
    ensures var cs := Chunks(s.p, s.c);
            |cs| == FramesIn(s) && |Flat(Replayed(cs, |cs| + 1))| > |s.p|
  {
    var cs := Chunks(s.p, s.c);
    ChunkCount(s.p, s.c);
    ChunksAreCanonical(s.p, s.c);
    FullLength(Replayed(cs, |cs| + 1), s.c);
    LengthBound(cs, s.c);
    MulGap(|cs|, |cs| + 1, s.c);
  }

  lemma {:induction false} LengthBound(pieces: seq<bytes>, c: pos)
    requires forall k :: 0 <= k < |pieces| ==> |pieces[k]| <= c
    ensures |Flat(pieces)| <= |pieces| * c
  {
    if pieces != [] {
      LengthBound(pieces[1..], c);
    }
  }

  /** An input that makes a frame out of place come out. */
  lemma LeavesPlace(aead: Aead, issued: map<bytes, SealedStream>, opener: Channel) returns (bs: bytes)
    requires Setting(aead, issued, opener) && !StaysInPlace(issued[opener.key], opener.layer)
    ensures !ReleasesOf(opener, bs, Chunks(issued[opener.key].p, issued[opener.key].c), issued[opener.key].c)
  {
    var s := issued[opener.key];
    var frames, cs := FramesOf(aead, opener.key, s), Chunks(s.p, s.c);
    ChunkCount(s.p, s.c);
    if opener.layer == Dart {
      ReplayOpens(aead, issued, opener, |cs| + 1);
      bs := Flat(Replayed(frames, |cs| + 1)) + [0];
    } else {
      var m: nat :| m < |cs| && cs[m] != cs[Wrapped(m)];
      SpliceOpens(aead, issued, opener, m);
      bs := SplicedInput(frames, m);
      assert Spliced(cs, m)[Wrapped(m)] == cs[m];
    }
  }

  /** An input that makes something other than the plaintext come out. */
  lemma LeavesPlaintext(aead: Aead, issued: map<bytes, SealedStream>, opener: Channel) returns (bs: bytes)
    requires Setting(aead, issued, opener) && !PlaintextStays(issued[opener.key], opener.layer)
    ensures !(Flat(Open(opener.Cipher(), bs, issued[opener.key].c).out) <= issued[opener.key].p)
  {
    var s := issued[opener.key];
    var frames, cs := FramesOf(aead, opener.key, s), Chunks(s.p, s.c);
    if opener.layer == Dart {
      ReplayedIsLonger(s);
      ReplayOpens(aead, issued, opener, |cs| + 1);
      bs := Flat(Replayed(frames, |cs| + 1)) + [0];
    } else {
      ChunkCount(s.p, s.c);
      var m: nat :| m < |cs| && !(cs[m] <= cs[Wrapped(m)]);
      SpliceOpens(aead, issued, opener, m);
      bs := SplicedInput(frames, m);
      SplicedPlaintextDiffers(s, m);
    }
  }

  /** Exactly when nothing is ever released out of place: for a Dart opener when its counter
      does not wrap; for a Rust opener of a Dart stream when every chunk is the chunk of its
      wrapped number; for a Rust opener of a Rust stream always. Chunk sizes other than the
      sealer's make nothing worse. */
  lemma PrefixSafetyIff(aead: Aead, issued: map<bytes, SealedStream>, opener: Channel)
    requires Setting(aead, issued, opener) && Producible(issued[opener.key])
    ensures var s := issued[opener.key];
            var cs := Chunks(s.p, s.c);
            && (OnlyReleases(opener, cs, s.c) <==> StaysInPlace(s, opener.layer))
            && (StaysInPlace(s, opener.layer) ==> forall c': pos :: OnlyReleases(opener, cs, c'))
  {
    if StaysInPlace(issued[opener.key], opener.layer) {
      var s := issued[opener.key];
      forall c': pos, bs
        ensures ReleasesOf(opener, bs, Chunks(s.p, s.c), c')
      {
        ReleasesInPlace(aead, issued, opener, bs, c');
      }
    } else {
      var bs := LeavesPlace(aead, issued, opener);
    }
  }

  /** The same for the plaintext as a byte string. */
  lemma PlaintextSafetyIff(aead: Aead, issued: map<bytes, SealedStream>, opener: Channel)
    requires Setting(aead, issued, opener) && Producible(issued[opener.key])
    ensures var s := issued[opener.key];
            && (OnlyYields(opener, s.p, s.c) <==> PlaintextStays(s, opener.layer))
            && (PlaintextStays(s, opener.layer) ==> forall c': pos :: OnlyYields(opener, s.p, c'))
  {
    if PlaintextStays(issued[opener.key], opener.layer) {
      forall c': pos, bs
        ensures Flat(Open(opener.Cipher(), bs, c').out) <= issued[opener.key].p
      {
        YieldsInPlace(aead, issued, opener, bs, c');
      }
    } else {
      var bs := LeavesPlaintext(aead, issued, opener);
    }
  }
}
