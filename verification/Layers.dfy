/** The two layers speak one wire format: agreement of sealers and openers, and round trips. */
module Layers {
  import opened Bytes
  import opened Channels
  import opened Chunking
  import opened Framing

  /** The same suite, key and associated data, whatever the layer. */
  ghost predicate Peers(a: Channel, b: Channel) {
    a.aead == b.aead && a.key == b.key && a.ad == b.ad
  }

  /** The two sides give the first `frames` frames the same nonces. */
  predicate NoncesShared(a: Layer, b: Layer, frames: nat) {
    a == b || frames <= TWO63
  }

  lemma PeersAgree(a: Channel, b: Channel, frames: nat)
    requires Peers(a, b) && NoncesShared(a.layer, b.layer, frames)
    ensures AgreeBelow(a.Cipher(), b.Cipher(), frames)
  {
    forall i: nat, last | i < frames
      ensures a.Nonce(i, last) == b.Nonce(i, last)
    {
      if a.layer != b.layer {
        NoncesAgree(i, last);
      }
    }
    var fa, fb := a.Cipher(), b.Cipher();
    forall i: nat, last, p | i < frames
      ensures fa.seal(i, last, p) == fb.seal(i, last, p)
    {
      assert fa.seal(i, last, p) == a.aead.seal(a.key, a.Nonce(i, last), a.ad, p);
    }
    forall i: nat, last, f | i < frames
      ensures fa.open(i, last, f) == fb.open(i, last, f)
    {
      assert fa.open(i, last, f) == a.aead.open(a.key, a.Nonce(i, last), a.ad, f);
    }
  }

  /** Whichever layer seals, the bytes are the same. */
  lemma SealersAgree(a: Channel, b: Channel, p: bytes, c: pos)
    requires Peers(a, b) && NoncesShared(a.layer, b.layer, FrameCount(|p|, c))
    ensures Sealed(a.Cipher(), p, c) == Sealed(b.Cipher(), p, c)
  {
    PeersAgree(a, b, FrameCount(|p|, c));
    SealAgrees(a.Cipher(), b.Cipher(), FrameCount(|p|, c), 0, p, c);
  }

  /** Whichever layer opens, every byte string, genuine or not, releases the same
      plaintext frames and gets the same verdict, for an arbitrary AEAD. What is bounded
      is the number of blocks long enough to be opened at all. */
  lemma OpenersAgree(a: Channel, b: Channel, bs: bytes, c: pos)
    requires Peers(a, b) && NoncesShared(a.layer, b.layer, OpenableCount(|bs|, c + TAG_LEN))
    ensures Open(a.Cipher(), bs, c) == Open(b.Cipher(), bs, c)
  {
    var w := c + TAG_LEN;
    PeersAgree(a, b, OpenableCount(|bs|, w));
    OpenAgrees(a.Cipher(), b.Cipher(), OpenableCount(|bs|, w), 0, bs, w);
  }

  lemma SizedCipher(ch: Channel)
    requires Sized(ch.aead)
    ensures SizedFrames(ch.Cipher())
  {
  }

  /** Any layer opens what any layer sealed, for every plaintext and chunk size. */
  lemma RoundTrip(sealer: Channel, opener: Channel, p: bytes, c: pos)
    requires Peers(sealer, opener) && Sized(sealer.aead) && Correct(sealer.aead)
    requires NoncesShared(sealer.layer, opener.layer, FrameCount(|p|, c))
    ensures var o := Open(opener.Cipher(), Flat(Sealed(sealer.Cipher(), p, c)), c);
            o == Opened(Chunks(p, c), Accepted) && Flat(o.out) == p
  {
    SizedCipher(sealer);
    OwnFramesOpen(sealer, opener, p, c);
    OpenSealed(sealer.Cipher(), opener.Cipher(), 0, p, c);
    ChunksAreCanonical(p, c);
  }

  lemma OwnFrameOpens(ch: Channel, k: nat, last: bool, chunk: bytes)
    requires Correct(ch.aead)
    ensures var fc := ch.Cipher(); fc.open(k, last, fc.seal(k, last, chunk)) == Some(chunk)
  {
    var nonce := ch.Nonce(k, last);
    assert ch.aead.open(ch.key, nonce, ch.ad, ch.aead.seal(ch.key, nonce, ch.ad, chunk)) == Some(chunk);
  }

  lemma OwnFrameAt(sealer: Channel, opener: Channel, p: bytes, c: pos, k: nat)
    requires AgreeBelow(sealer.Cipher(), opener.Cipher(), |Chunks(p, c)|) && Correct(sealer.aead)
    requires k < |Chunks(p, c)|
    ensures |Sealed(sealer.Cipher(), p, c)| == |Chunks(p, c)|
    ensures opener.Cipher().open(k, k == |Chunks(p, c)| - 1, Sealed(sealer.Cipher(), p, c)[k]) == Some(Chunks(p, c)[k])
  {
    SealedFrameAt(sealer.Cipher(), 0, p, c, k);
    OwnFrameOpens(sealer, k, k == |Chunks(p, c)| - 1, Chunks(p, c)[k]);
  }

  lemma OwnFramesOpen(sealer: Channel, opener: Channel, p: bytes, c: pos)
    requires Peers(sealer, opener) && Correct(sealer.aead)
    requires NoncesShared(sealer.layer, opener.layer, FrameCount(|p|, c))
    ensures Opens(sealer.Cipher(), opener.Cipher(), 0, p, c)
  {
    ChunkCount(p, c);
    PeersAgree(sealer, opener, FrameCount(|p|, c));
    SealFromMapsChunks(sealer.Cipher(), 0, p, c);
    forall k | 0 <= k < |Chunks(p, c)|
      ensures opener.Cipher().open(0 + k, k == |Chunks(p, c)| - 1, Sealed(sealer.Cipher(), p, c)[k])
           == Some(Chunks(p, c)[k])
    {
      OwnFrameAt(sealer, opener, p, c, k);
    }
  }

  // ---- the wire format, spelled out ----------------------------------------

  /** nonce holds frame number k, big-endian, in its first eleven bytes and the flag in
      the twelfth; and the layer's counter gets as far as k. */
  ghost predicate IsNonce(layer: Layer, k: nat, last: bool, nonce: bytes) {
    && (k < 0x8000_0000_0000_0000 || (layer == Rust && k < 0x1_0000_0000_0000_0000))
    && |nonce| == 12 && FromBigEndian(nonce[..11]) == k && nonce[11] == if last then 1 else 0
  }

  lemma FrameCall(ch: Channel, p: bytes, c: pos, k: nat, nonce: bytes)
    requires k < |Chunks(p, c)| && nonce == ch.Nonce(k, k == |Chunks(p, c)| - 1)
    ensures var frames := Sealed(ch.Cipher(), p, c);
            |frames| == |Chunks(p, c)| && frames[k] == ch.aead.seal(ch.key, nonce, ch.ad, Chunks(p, c)[k])
  {
    var fc, chunk, last := ch.Cipher(), Chunks(p, c)[k], k == |Chunks(p, c)| - 1;
    SealedFrameAt(fc, 0, p, c, k);
    FrameCalls(ch, fc, k, last, nonce, chunk);
  }

  lemma BlockCall(ch: Channel, bs: bytes, c: pos, k: nat, nonce: bytes)
    requires k < |Chunks(bs, c + 16)| && nonce == ch.Nonce(k, k == |Chunks(bs, c + 16)| - 1)
    ensures var o, blocks := Open(ch.Cipher(), bs, c), Chunks(bs, c + 16);
            var plain := ch.aead.open(ch.key, nonce, ch.ad, blocks[k]);
            && (k < |o.out| ==> |blocks[k]| >= 16 && plain == Some(o.out[k]))
            && (k == |o.out| ==> if |blocks[k]| < 16 then o.verdict == Malformed
                                 else plain == None && o.verdict == Unauthentic)
            && (k == |o.out| - 1 == |blocks| - 1 ==> o.verdict == Accepted)
  {
    OpenMapsBlocks(ch.Cipher(), bs, c);
    FrameCalls(ch, ch.Cipher(), k, k == |Chunks(bs, c + 16)| - 1, nonce, Chunks(bs, c + 16)[k]);
  }

  /** Frame k on the wire is the AEAD output for the c bytes of the plaintext from k * c on,
      or what is left of them, under the nonce that holds k, and the flag if nothing
      follows. */
  lemma WireFormat(ch: Channel, p: bytes, c: pos, k: nat, at: nat, nonce: bytes)
    requires at == k * c && (k == 0 || at < |p|)
    requires IsNonce(ch.layer, k, |p| <= at + c, nonce)
    ensures var frames := Sealed(ch.Cipher(), p, c);
            && k < |frames| && (k == |frames| - 1 <==> |p| <= at + c)
            && at <= |p| && frames[k] == ch.aead.seal(ch.key, nonce, ch.ad, p[at..Min(at + c, |p|)])
  {
    NonceFromContents(ch, k, |p| <= at + c, nonce);
    ChunkAt(p, c, k);
    FrameCall(ch, p, c, k, nonce);
  }

  /** Block k of an input to be opened is c + 16 bytes, less only at the end. It is opened
      under the same nonce, and if it is not, that is a format error if it is too short to
      hold a tag and an authentication failure otherwise. */
  lemma WireOpens(ch: Channel, bs: bytes, c: pos, k: nat, at: nat, nonce: bytes)
    requires at == k * (c + 16) && (k == 0 || at < |bs|)
    requires IsNonce(ch.layer, k, |bs| <= at + c + 16, nonce)
    ensures at <= |bs|
    ensures var o, block := Open(ch.Cipher(), bs, c), bs[at..Min(at + c + 16, |bs|)];
            var plain := ch.aead.open(ch.key, nonce, ch.ad, block);
            && (k < |o.out| ==> |block| >= 16 && plain == Some(o.out[k]))
            && (k == |o.out| ==> if |block| < 16 then o.verdict == Malformed
                                 else plain == None && o.verdict == Unauthentic)
            && (k == |o.out| - 1 && |bs| <= at + c + 16 ==> o.verdict == Accepted)
  {
    NonceFromContents(ch, k, |bs| <= at + c + 16, nonce);
    ChunkAt(bs, c + 16, k);
    BlockCall(ch, bs, c, k, nonce);
  }
}
