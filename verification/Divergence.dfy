/** Where the two layers part: past 2^63 frames the Dart counter has wrapped and the Rust
    counter has not. Each agreement result of Layers fails there for some AEAD. */
module Divergence {
  import opened Bytes
  import opened Channels
  import opened Chunking
  import opened Framing
  import opened Layers

  function NonceTag(nonce: bytes): (tag: bytes)
    ensures |tag| == TAG_LEN
  {
    (nonce + Zeros(TAG_LEN))[..TAG_LEN]
  }

  lemma NonceTagsDiffer(n: bytes, n': bytes)
    requires |n| == |n'| == NONCE_LEN && n != n'
    ensures NonceTag(n) != NonceTag(n')
  {
    assert NonceTag(n)[..NONCE_LEN] == n && NonceTag(n')[..NONCE_LEN] == n';
  }

  function CheckTag(nonce: bytes, ct: bytes): Option<bytes> {
    if |ct| >= TAG_LEN && ct[|ct| - TAG_LEN..] == NonceTag(nonce) then Some(ct[..|ct| - TAG_LEN]) else None
  }

  /** A correct suite whose tag is the nonce: it opens under the nonce it was sealed with,
      and under no other. */
  function TaggingAead(): Aead {
    Aead((k, n, a, p) => p + NonceTag(n), (k, n, a, ct) => CheckTag(n, ct))
  }

  lemma TaggingAeadIsLawful()
    ensures Sized(TaggingAead()) && Correct(TaggingAead())
  {
    var aead := TaggingAead();
    forall key, nonce, ad, p
      ensures aead.open(key, nonce, ad, aead.seal(key, nonce, ad, p)) == Some(p)
    {
      var ct := p + NonceTag(nonce);
      assert ct[|ct| - TAG_LEN..] == NonceTag(nonce) && ct[..|ct| - TAG_LEN] == p;
    }
  }

  /** The layers' frame number 2^63, hidden behind a variable. */
  lemma FirstDifference(a: Channel, b: Channel, last: bool) returns (i: nat)
    requires a.layer != b.layer && a.aead == b.aead == TaggingAead()
    ensures i == TWO63 && a.Nonce(i, last) != b.Nonce(i, last)
    ensures forall p :: a.Cipher().seal(i, last, p) != b.Cipher().seal(i, last, p)
    ensures forall p :: b.Cipher().open(i, last, a.Cipher().seal(i, last, p)) == None
  {
    i := TWO63;
    NoncesAgreeIff(i, last);
    var n, n' := a.Nonce(i, last), b.Nonce(i, last);
    NonceTagsDiffer(n, n');
    forall p
      ensures a.Cipher().seal(i, last, p) != b.Cipher().seal(i, last, p)
      ensures b.Cipher().open(i, last, a.Cipher().seal(i, last, p)) == None
    {
      assert (p + NonceTag(n))[|p|..] == NonceTag(n) && (p + NonceTag(n'))[|p|..] == NonceTag(n');
    }
  }

  /** On every plaintext of more than 2^63 frames the two sealers differ. */
  lemma SealersDiverge(a: Channel, b: Channel, p: bytes, c: pos)
    requires a.layer != b.layer && a.aead == b.aead == TaggingAead() && FrameCount(|p|, c) > TWO63
    ensures Sealed(a.Cipher(), p, c) != Sealed(b.Cipher(), p, c)
  {
    ChunkCount(p, c);
    var i := FirstDifference(a, b, TWO63 == |Chunks(p, c)| - 1);
    DifferentFrameShows(a.Cipher(), b.Cipher(), p, c, i);
  }

  lemma DifferentFrameShows(a: FrameCipher, b: FrameCipher, p: bytes, c: pos, i: nat)
    requires i < |Chunks(p, c)|
    requires var last := i == |Chunks(p, c)| - 1;
             a.seal(i, last, Chunks(p, c)[i]) != b.seal(i, last, Chunks(p, c)[i])
    ensures Sealed(a, p, c) != Sealed(b, p, c)
  {
    SealedFrameAt(a, 0, p, c, i);
    SealedFrameAt(b, 0, p, c, i);
  }

  /** And neither layer opens what the other sealed. */
  lemma RoundTripFails(sealer: Channel, opener: Channel, p: bytes, c: pos)
    requires sealer.layer != opener.layer && sealer.aead == opener.aead == TaggingAead()
    requires FrameCount(|p|, c) > TWO63
    ensures Open(opener.Cipher(), Flat(Sealed(sealer.Cipher(), p, c)), c).verdict != Accepted
  {
    ChunkCount(p, c);
    var i := FirstDifference(sealer, opener, TWO63 == |Chunks(p, c)| - 1);
    TaggingAeadIsLawful();
    SizedCipher(sealer);
    UnopenedFrameShows(sealer.Cipher(), opener.Cipher(), p, c, i);
  }

  lemma UnopenedFrameShows(a: FrameCipher, b: FrameCipher, p: bytes, c: pos, i: nat)
    requires SizedFrames(a) && i < |Chunks(p, c)|
    requires var last := i == |Chunks(p, c)| - 1;
             b.open(i, last, a.seal(i, last, Chunks(p, c)[i])) == None
    ensures Open(b, Flat(Sealed(a, p, c)), c).verdict != Accepted
  {
    SealedFrameAt(a, 0, p, c, i);
    SealedLengthAndReframing(a, 0, p, c);
    OpenMapsBlocks(b, Flat(Sealed(a, p, c)), c);
  }

  /** The suite that opens everything, to the nonce it was given. */
  function EchoAead(): Aead {
    Aead((k, n, a, p) => p, (k, n, a, ct) => Some(n))
  }

  lemma EchoedNonce(ch: Channel, bs: bytes, c: pos, i: nat)
    requires ch.aead == EchoAead() && i < OpenableCount(|bs|, c + TAG_LEN)
    ensures var out, n := Open(ch.Cipher(), bs, c).out, |Chunks(bs, c + TAG_LEN)|;
            i < |out| && out[i] == ch.Nonce(i, i == n - 1)
  {
    AllOpenCount(ch.Cipher(), 0, bs, c + TAG_LEN);
    OpenedFrameAt(ch.Cipher(), 0, bs, c + TAG_LEN, i);
  }

  /** On every byte string with more than 2^63 blocks to open the two openers differ. */
  lemma OpenersDiverge(a: Channel, b: Channel, bs: bytes, c: pos)
    requires a.layer != b.layer && a.aead == b.aead == EchoAead()
    requires OpenableCount(|bs|, c + TAG_LEN) > TWO63
    ensures Open(a.Cipher(), bs, c) != Open(b.Cipher(), bs, c)
  {
    var i: nat :| i == TWO63;
    NoncesAgreeIff(i, i == |Chunks(bs, c + TAG_LEN)| - 1);
    EchoedNonce(a, bs, c, i);
    EchoedNonce(b, bs, c, i);
  }
}
