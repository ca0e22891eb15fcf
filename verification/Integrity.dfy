/** From per-frame authenticity to whole-stream authenticity.

    The AEAD's integrity is a hypothesis, not an axiom: `Authentic` says that the only
    tuples that open are the frames of the streams that were sealed, one stream per key. */
module Integrity {
  import opened Bytes
  import opened Channels
  import opened Chunking
  import opened Framing
  import opened Layers

  /** One stream sealed under some key. */
  datatype SealedStream = SealedStream(layer: Layer, ad: bytes, p: bytes, c: pos)

  function Sealer(aead: Aead, key: bytes, s: SealedStream): Channel {
    Channel(s.layer, aead, key, s.ad)
  }

  function FramesOf(aead: Aead, key: bytes, s: SealedStream): (frames: seq<bytes>)
    ensures |frames| > 0
  {
    Sealed(Sealer(aead, key, s).Cipher(), s.p, s.c)
  }

  /** (nonce, ad, ct) is frame k of the stream s sealed under key. */
  ghost predicate IsFrame(aead: Aead, key: bytes, s: SealedStream, k: nat, nonce: bytes, ad: bytes, ct: bytes) {
    var frames := FramesOf(aead, key, s);
    && k < |frames|
    && nonce == RunNonce(Sealer(aead, key, s), |frames|, k)
    && ad == s.ad
    && ct == frames[k]
  }

  /** Only genuine frames open. */
  ghost predicate OnlyIssuedOpen(aead: Aead, issued: map<bytes, SealedStream>) {
    forall key, nonce, ad, ct :: aead.open(key, nonce, ad, ct).Some? ==>
      key in issued && exists k: nat :: IsFrame(aead, key, issued[key], k, nonce, ad, ct)
  }

  /** Genuine frames open to their chunks. */
  ghost predicate IssuedOpen(aead: Aead, issued: map<bytes, SealedStream>) {
    forall key, k: nat, nonce, ad, ct ::
      key in issued && IsFrame(aead, key, issued[key], k, nonce, ad, ct)
      ==> k < |Chunks(issued[key].p, issued[key].c)|
          && aead.open(key, nonce, ad, ct) == Some(Chunks(issued[key].p, issued[key].c)[k])
  }

  ghost predicate Authentic(aead: Aead, issued: map<bytes, SealedStream>) {
    OnlyIssuedOpen(aead, issued) && IssuedOpen(aead, issued)
  }

  function FramesIn(s: SealedStream): nat {
    FrameCount(|s.p|, s.c)
  }

  /** The stream sealed under the key, if any, did not outrun its sealer's counter. */
  predicate InRange(issued: map<bytes, SealedStream>, key: bytes) {
    key in issued ==> FramesIn(issued[key]) <= CounterRange(issued[key].layer)
  }

  /** ... nor the counter of the layer that opens it. */
  predicate InCommonRange(issued: map<bytes, SealedStream>, opener: Channel) {
    opener.key in issued ==> FramesIn(issued[opener.key]) <= FrameLimit(issued[opener.key].layer, opener.layer)
  }

  // ---- one stream, seen by one opener --------------------------------------

  /** At every frame number of the stream the opener accepts that frame, with the right
      flag, and nothing else. */
  ghost predicate Genuine(opener: FrameCipher, frames: seq<bytes>, cs: seq<bytes>) {
    && |frames| == |cs| > 0
    && (forall k: nat, last, ct :: k < |cs| && opener.open(k, last, ct).Some? ==>
          last == (k == |cs| - 1) && ct == frames[k])
    && (forall k: nat :: k < |cs| ==> opener.open(k, k == |cs| - 1, frames[k]) == Some(cs[k]))
  }

  /** Nonce injectivity turns the table of sealed tuples into frame-by-frame control. */
  lemma AuthenticIsGenuine(aead: Aead, issued: map<bytes, SealedStream>, opener: Channel)
    requires Authentic(aead, issued) && opener.aead == aead
    requires opener.key in issued && opener.ad == issued[opener.key].ad && InCommonRange(issued, opener)
    ensures var s := issued[opener.key];
            Genuine(opener.Cipher(), FramesOf(aead, opener.key, s), Chunks(s.p, s.c))
  {
    var s := issued[opener.key];
    var sealer, frames, cs := Sealer(aead, opener.key, s), FramesOf(aead, opener.key, s), Chunks(s.p, s.c);
    var n, fc := |cs|, opener.Cipher();
    ChunkCount(s.p, s.c);
    SealFromMapsChunks(sealer.Cipher(), 0, s.p, s.c);
    forall k: nat, last, ct | k < n && fc.open(k, last, ct).Some?
      ensures last == (k == n - 1) && ct == frames[k]
    {
      assert aead.open(opener.key, opener.Nonce(k, last), opener.ad, ct).Some?;
      var j: nat :| IsFrame(aead, opener.key, s, j, opener.Nonce(k, last), opener.ad, ct);
      NonceIdentifiesFrame(sealer, opener, j, j == n - 1, k, last);
    }
    forall k: nat | k < n
      ensures fc.open(k, k == n - 1, frames[k]) == Some(cs[k])
    {
      NonceIdentifiesFrame(sealer, opener, k, k == n - 1, k, k == n - 1);
      assert IsFrame(aead, opener.key, s, k, opener.Nonce(k, k == n - 1), opener.ad, frames[k]);
    }
  }

  /** Whatever an opener is fed, and whatever frame size it cuts with, what it releases
      is a whole-frame prefix of the genuine plaintext. */
  lemma {:induction false} ReleasedIsPrefix(opener: FrameCipher, frames: seq<bytes>, cs: seq<bytes>,
                                            i: nat, bs: bytes, w: pos)
    requires i < |cs| && Genuine(opener, frames, cs)
    ensures OpenFrom(opener, i, bs, w).out <= cs[i..]
    decreases |bs|
  {
    if |bs| > w {
      if opener.open(i, false, bs[..w]).Some? {
        ReleasedIsPrefix(opener, frames, cs, i + 1, bs[w..], w);
        FlatDrop(cs, i);
      }
    }
  }

  /** Acceptance forces the input to be the remaining frames, byte for byte. */
  lemma {:induction false} AcceptedIsGenuine(opener: FrameCipher, frames: seq<bytes>, cs: seq<bytes>,
                                             i: nat, bs: bytes, w: pos)
    requires i < |cs| && Genuine(opener, frames, cs)
    requires OpenFrom(opener, i, bs, w).verdict == Accepted
    ensures bs == Flat(frames[i..])
    ensures OpenFrom(opener, i, bs, w).out == cs[i..]
    ensures if i == |cs| - 1 then |frames[i]| <= w else |frames[i]| == w
    decreases |bs|
  {
    FlatDrop(frames, i);
    FlatDrop(cs, i);
    if |bs| > w {
      AcceptedIsGenuine(opener, frames, cs, i + 1, bs[w..], w);
      assert bs == bs[..w] + bs[w..];
    } else {
      assert frames[i + 1..] == [] && cs[i + 1..] == [];
    }
  }

  // ---- main theorems -------------------------------------------------------

  /** A stream sealed with chunk size c opens with chunk size c' only in these cases. */
  predicate Readable(s: SealedStream, c': pos) {
    s.c == c' || |s.p| <= Min(s.c, c')
  }

  /** Whole-stream integrity, and the exact effect of a chunk-size mismatch: a byte string
      is accepted if and only if it is exactly the stream sealed under this key, read with
      the same associated data and a chunk size it is readable with, by a layer that gives
      its frames the same nonces. Truncated, extended, reordered and spliced streams are all
      other byte strings. */
  lemma AcceptedIff(aead: Aead, issued: map<bytes, SealedStream>, opener: Channel, bs: bytes, c': pos)
    requires Sized(aead) && Authentic(aead, issued) && opener.aead == aead && InRange(issued, opener.key)
    ensures Open(opener.Cipher(), bs, c').verdict == Accepted <==>
              && opener.key in issued
              && opener.ad == issued[opener.key].ad
              && bs == Flat(FramesOf(aead, opener.key, issued[opener.key]))
              && Readable(issued[opener.key], c')
              && NoncesShared(issued[opener.key].layer, opener.layer, FramesIn(issued[opener.key]))
  {
    if opener.key !in issued || opener.ad != issued[opener.key].ad {
      NothingOpens(aead, issued, opener, bs, c');
    } else if !InCommonRange(issued, opener) {
      LongRustStreamRejected(aead, issued, opener, bs, c');
    } else {
      var s := issued[opener.key];
      AuthenticIsGenuine(aead, issued, opener);
      if Open(opener.Cipher(), bs, c').verdict == Accepted {
        AcceptedIsReadable(aead, s, opener, bs, c');
      }
      if Readable(s, c') {
        ReadableOpens(aead, s, opener, c');
      }
    }
  }

  /** A stream the Rust layer numbered past 2^63 is rejected by the Dart layer, whatever is
      presented: no nonce with the last-flag that Dart can form was used for it. */
  lemma LongRustStreamRejected(aead: Aead, issued: map<bytes, SealedStream>, opener: Channel, bs: bytes, c': pos)
    requires Authentic(aead, issued) && opener.aead == aead && opener.key in issued
    requires InRange(issued, opener.key) && !InCommonRange(issued, opener)
    ensures Open(opener.Cipher(), bs, c').verdict != Accepted
  {
    var s := issued[opener.key];
    var n := FramesIn(s);
    forall k: nat, ct
      ensures opener.Cipher().open(k, true, ct) == None
    {
      if aead.open(opener.key, opener.Nonce(k, true), opener.ad, ct).Some? {
        var j: nat :| IsFrame(aead, opener.key, s, j, opener.Nonce(k, true), opener.ad, ct);
        ChunkCount(s.p, s.c);
        SealFromMapsChunks(Sealer(aead, opener.key, s).Cipher(), 0, s.p, s.c);
        NoncesEqualIff(Sealer(aead, opener.key, s), opener, j, j == n - 1, k, true);
        assert false;
      }
    }
    NoFinalFrame(opener.Cipher(), 0, bs, c' + TAG_LEN);
  }

  lemma {:induction false} NoFinalFrame(fc: FrameCipher, i: nat, bs: bytes, w: pos)
    requires forall k: nat, ct :: fc.open(k, true, ct) == None
    ensures OpenFrom(fc, i, bs, w).verdict != Accepted
    decreases |bs|
  {
    if |bs| > w {
      NoFinalFrame(fc, i + 1, bs[w..], w);
    }
  }

  lemma NothingOpens(aead: Aead, issued: map<bytes, SealedStream>, opener: Channel, bs: bytes, c': pos)
    requires OnlyIssuedOpen(aead, issued) && opener.aead == aead
    requires opener.key !in issued || opener.ad != issued[opener.key].ad
    ensures Open(opener.Cipher(), bs, c') == Opened([], if |bs| < 16 then Malformed else Unauthentic)
  {
    assert forall last, ct :: opener.Cipher().open(0, last, ct) == None;
  }

  /** Associated data is bound: a stream sealed with one opens with no other. Null and empty
      are the same; every other pair differs. */
  lemma OtherAadOpensNothing(aead: Aead, issued: map<bytes, SealedStream>, layer: Layer, key: bytes,
                             sealedWith: Option<bytes>, aad: Option<bytes>, bs: bytes, c': pos)
    requires Authentic(aead, issued)
    requires key in issued ==> issued[key].ad == AdOf(sealedWith)
    requires !SameAad(sealedWith, aad)
    ensures Open(Channel(layer, aead, key, AdOf(aad)).Cipher(), bs, c')
         == Opened([], if |bs| < 16 then Malformed else Unauthentic)
  {
    SameAadIff(sealedWith, aad);
    NothingOpens(aead, issued, Channel(layer, aead, key, AdOf(aad)), bs, c');
  }

  lemma ReadableOpens(aead: Aead, s: SealedStream, opener: Channel, c': pos)
    requires Sized(aead) && opener.aead == aead && Readable(s, c')
    requires Genuine(opener.Cipher(), FramesOf(aead, opener.key, s), Chunks(s.p, s.c))
    ensures Open(opener.Cipher(), Flat(FramesOf(aead, opener.key, s)), c').verdict == Accepted
  {
    var sealer := Sealer(aead, opener.key, s).Cipher();
    var frames, cs := FramesOf(aead, opener.key, s), Chunks(s.p, s.c);
    SizedCipher(Sealer(aead, opener.key, s));
    if s.c == c' {
      assert Opens(sealer, opener.Cipher(), 0, s.p, s.c);
      OpenSealed(sealer, opener.Cipher(), 0, s.p, s.c);
    } else {
      assert cs == [s.p] && frames == [sealer.seal(0, true, s.p)];
      FlatSingle(frames[0]);
      assert opener.Cipher().open(0, 0 == |cs| - 1, frames[0]) == Some(cs[0]);
    }
  }

  lemma AcceptedIsReadable(aead: Aead, s: SealedStream, opener: Channel, bs: bytes, c': pos)
    requires Sized(aead) && opener.aead == aead
    requires Genuine(opener.Cipher(), FramesOf(aead, opener.key, s), Chunks(s.p, s.c))
    requires Open(opener.Cipher(), bs, c').verdict == Accepted
    ensures bs == Flat(FramesOf(aead, opener.key, s)) && Readable(s, c')
  {
    var sealer := Sealer(aead, opener.key, s).Cipher();
    var frames, cs := FramesOf(aead, opener.key, s), Chunks(s.p, s.c);
    SizedCipher(Sealer(aead, opener.key, s));
    AcceptedIsGenuine(opener.Cipher(), frames, cs, 0, bs, c' + TAG_LEN);
    assert frames[0..] == frames;
    assert frames[0] == sealer.seal(0, |s.p| <= s.c, cs[0]);
  }

  /** An accepted stream yields exactly the plaintext that was sealed. */
  lemma AcceptedYieldsPlaintext(aead: Aead, issued: map<bytes, SealedStream>, opener: Channel, bs: bytes, c': pos)
    requires Sized(aead) && Authentic(aead, issued) && opener.aead == aead && InRange(issued, opener.key)
    requires Open(opener.Cipher(), bs, c').verdict == Accepted
    ensures opener.key in issued && Flat(Open(opener.Cipher(), bs, c').out) == issued[opener.key].p
  {
    AcceptedIff(aead, issued, opener, bs, c');
    var s := issued[opener.key];
    AuthenticIsGenuine(aead, issued, opener);
    var cs := Chunks(s.p, s.c);
    AcceptedIsGenuine(opener.Cipher(), FramesOf(aead, opener.key, s), cs, 0, bs, c' + TAG_LEN);
    assert cs[0..] == cs;
    ChunksAreCanonical(s.p, s.c);
  }

  /** Released-prefix safety: accepted or not, finished or not, the frames an opener has
      released after reading r are a prefix of the genuine chunks, and nothing at all is
      released under a key or associated data that sealed no stream. */
  lemma ReleasedPrefixSafety(aead: Aead, issued: map<bytes, SealedStream>, opener: Channel, r: bytes, c': pos)
    requires Authentic(aead, issued) && opener.aead == aead && InCommonRange(issued, opener)
    ensures var genuine := if opener.key in issued && opener.ad == issued[opener.key].ad
                           then Chunks(issued[opener.key].p, issued[opener.key].c) else [];
            && OpenSoFar(opener.Cipher(), 0, r, c' + TAG_LEN).out <= genuine
            && Open(opener.Cipher(), r, c').out <= genuine
  {
    OpenSoFarIsSound(opener.Cipher(), r, [], c');
    assert r + [] == r;
    if opener.key in issued && opener.ad == issued[opener.key].ad {
      var s := issued[opener.key];
      AuthenticIsGenuine(aead, issued, opener);
      var cs := Chunks(s.p, s.c);
      ReleasedIsPrefix(opener.Cipher(), FramesOf(aead, opener.key, s), cs, 0, r, c' + TAG_LEN);
      assert cs[0..] == cs;
    } else {
      NothingOpens(aead, issued, opener, r, c');
    }
  }

  // ---- the hypotheses are consistent ---------------------------------------

  /** Frames do not depend on how the suite opens. */
  lemma {:induction false} FramesDependOnSealOnly(a: Channel, b: Channel, i: nat, p: bytes, c: pos)
    requires a.layer == b.layer && a.key == b.key && a.ad == b.ad
    requires a.aead.seal == b.aead.seal
    ensures SealFrom(a.Cipher(), i, p, c) == SealFrom(b.Cipher(), i, p, c)
    decreases |p|
  {
    if |p| > c {
      FramesDependOnSealOnly(a, b, i + 1, p[c..], c);
    }
  }

  /** The opener that accepts precisely the issued frames. */
  ghost function LookUp(mute: Aead, issued: map<bytes, SealedStream>, key: bytes, nonce: bytes, ad: bytes, ct: bytes)
    : Option<bytes>
  {
    if key in issued && exists k: nat :: IsFrame(mute, key, issued[key], k, nonce, ad, ct) then
      var k: nat :| IsFrame(mute, key, issued[key], k, nonce, ad, ct);
      SealFromMapsChunks(Sealer(mute, key, issued[key]).Cipher(), 0, issued[key].p, issued[key].c);
      Some(Chunks(issued[key].p, issued[key].c)[k])
    else None
  }

  /** No two frames of a stream share nonce and ciphertext without sharing the chunk. */
  ghost predicate Unambiguous(mute: Aead, issued: map<bytes, SealedStream>) {
    forall key, j: nat, k: nat, nonce, ad, ct |
      && key in issued
      && IsFrame(mute, key, issued[key], j, nonce, ad, ct)
      && IsFrame(mute, key, issued[key], k, nonce, ad, ct)
      :: SameChunk(issued[key], j, k)
  }

  predicate SameChunk(s: SealedStream, j: nat, k: nat) {
    var cs := Chunks(s.p, s.c);
    j < |cs| && k < |cs| && cs[j] == cs[k]
  }

  lemma FramesTransfer(a: Aead, b: Aead, issued: map<bytes, SealedStream>)
    requires a.seal == b.seal
    ensures forall key, k: nat, nonce, ad, ct | key in issued ::
              IsFrame(a, key, issued[key], k, nonce, ad, ct) <==> IsFrame(b, key, issued[key], k, nonce, ad, ct)
  {
    forall key | key in issued
      ensures FramesOf(a, key, issued[key]) == FramesOf(b, key, issued[key])
    {
      var s := issued[key];
      FramesDependOnSealOnly(Sealer(a, key, s), Sealer(b, key, s), 0, s.p, s.c);
    }
  }

  /** For unambiguous streams some opener meets the hypothesis. */
  lemma AuthenticIsSatisfiable(mute: Aead, issued: map<bytes, SealedStream>) returns (aead: Aead)
    requires Unambiguous(mute, issued)
    ensures aead.seal == mute.seal && Authentic(aead, issued)
  {
    aead := Aead(mute.seal, (key, nonce, ad, ct) => LookUp(mute, issued, key, nonce, ad, ct));
    FramesTransfer(aead, mute, issued);
    forall key, k: nat, nonce, ad, ct | key in issued && IsFrame(aead, key, issued[key], k, nonce, ad, ct)
      ensures k < |Chunks(issued[key].p, issued[key].c)|
      ensures aead.open(key, nonce, ad, ct) == Some(Chunks(issued[key].p, issued[key].c)[k])
    {
      var s := issued[key];
      SealFromMapsChunks(Sealer(mute, key, s).Cipher(), 0, s.p, s.c);
      var j: nat :| IsFrame(mute, key, s, j, nonce, ad, ct)
                    && aead.open(key, nonce, ad, ct) == Some(Chunks(s.p, s.c)[j]);
      assert SameChunk(s, j, k);
    }
  }

  lemma AuthenticIsUnambiguous(aead: Aead, issued: map<bytes, SealedStream>)
    requires Authentic(aead, issued)
    ensures Unambiguous(aead, issued)
  {
  }

  /** Authenticity can be met exactly when the issued streams are unambiguous. */
  lemma SatisfiableIff(mute: Aead, issued: map<bytes, SealedStream>)
    ensures (exists aead: Aead :: aead.seal == mute.seal && Authentic(aead, issued)) <==> Unambiguous(mute, issued)
  {
    if aead: Aead :| aead.seal == mute.seal && Authentic(aead, issued) {
      AuthenticIsUnambiguous(aead, issued);
      FramesTransfer(aead, mute, issued);
    }
    if Unambiguous(mute, issued) {
      var aead := AuthenticIsSatisfiable(mute, issued);
    }
  }

  /** Streams within their sealer's counter range are unambiguous, whatever seals them. */
  lemma InRangeIsUnambiguous(mute: Aead, issued: map<bytes, SealedStream>)
    requires forall key :: key in issued ==> InRange(issued, key)
    ensures Unambiguous(mute, issued)
  {
    forall key, j: nat, k: nat, nonce, ad, ct |
      key in issued && IsFrame(mute, key, issued[key], j, nonce, ad, ct)
      && IsFrame(mute, key, issued[key], k, nonce, ad, ct)
      ensures SameChunk(issued[key], j, k)
    {
      var s := issued[key];
      var sealer, n := Sealer(mute, key, s), FramesIn(s);
      ChunkCount(s.p, s.c);
      SealFromMapsChunks(sealer.Cipher(), 0, s.p, s.c);
      NonceIdentifiesFrame(sealer, sealer, j, j == n - 1, k, k == n - 1);
    }
  }

  lemma FrameIsSealedChunk(aead: Aead, key: bytes, s: SealedStream, k: nat, nonce: bytes, ad: bytes, ct: bytes)
    requires IsFrame(aead, key, s, k, nonce, ad, ct)
    ensures k < |Chunks(s.p, s.c)| && ct == aead.seal(key, nonce, ad, Chunks(s.p, s.c)[k])
  {
    SealedFrameAt(Sealer(aead, key, s).Cipher(), 0, s.p, s.c, 0);
    SealedFrameAt(Sealer(aead, key, s).Cipher(), 0, s.p, s.c, k);
  }

  /** So are streams of any length when sealing loses nothing, as with every correct suite. */
  lemma CorrectIsUnambiguous(aead: Aead, issued: map<bytes, SealedStream>)
    requires Correct(aead)
    ensures Unambiguous(aead, issued)
  {
    forall key, j: nat, k: nat, nonce, ad, ct |
      && key in issued
      && IsFrame(aead, key, issued[key], j, nonce, ad, ct)
      && IsFrame(aead, key, issued[key], k, nonce, ad, ct)
      ensures SameChunk(issued[key], j, k)
    {
      FrameIsSealedChunk(aead, key, issued[key], j, nonce, ad, ct);
      FrameIsSealedChunk(aead, key, issued[key], k, nonce, ad, ct);
    }
  }
}
