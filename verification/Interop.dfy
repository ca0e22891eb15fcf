/** Cross-layer runs: what one layer seals, the other opens; and whatever the input, both open
    it alike. */
module Interop {
  import opened Bytes
  import opened Channels
  import opened Chunking
  import opened Framing
  import opened Layers
  import opened Disk
  import opened PullStream
  import opened FilePipeline
  import opened FileCipher
  import PushStream

  /** A file sealed by the native pipeline, read in pieces of any size, opens through the
      Dart stream. */
  method NativeSealStreamOpen(fs: FileSystem, resolve: Path -> File, aead: Aead, key: bytes, aad: Option<bytes>,
                              c: pos, plain: Path, enc: Path, pieceSize: pos)
    returns (r: RunResult, o: PushStream.PushResult)
    requires Sized(aead) && Correct(aead)
    requires resolve(plain) in fs.files && resolve(plain) != resolve(TmpPath(enc))
    requires FrameCount(|fs.files[resolve(plain)]|, c) <= TWO63
    modifies fs
    ensures fs.reliable ==> r == Published
    ensures r == Published ==>
              var p := old(fs.files)[resolve(plain)];
              o == PushStream.Finished(Chunks(p, c), Accepted) && Flat(o.frames) == p
  {
    ghost var p := fs.files[resolve(plain)];
    var native := Channel(Rust, aead, key, AdOf(aad));
    SealFromMapsChunks(native.Cipher(), 0, p, c);
    ChunkCount(p, c);
    r := Run(fs, resolve, SealFn, native, c, plain, enc);
    o := PushStream.ArgumentError;
    if r == Published {
      RoundTrip(native, native.(layer := Dart), p, c);
      var source := Chunks(fs.files[resolve(enc)], pieceSize);
      ChunksAreCanonical(fs.files[resolve(enc)], pieceSize);
      o := PushStream.OpenStream(aead, key, aad, c, source);
    }
  }

  /** A stream sealed by the Dart layer, from events of any sizes, and written to a file,
      opens through the native pipeline. */
  method StreamSealNativeOpen(files: Files, reliable: bool, resolve: Path -> File, aead: Aead, key: bytes,
                              aad: Option<bytes>, c: pos, source: seq<bytes>, enc: Path, dec: Path)
    returns (fs: FileSystem, r: RunResult)
    requires Sized(aead) && Correct(aead)
    requires FrameCount(|Flat(source)|, c) <= TWO63 && resolve(enc) != resolve(TmpPath(dec))
    ensures reliable ==> r == Published
    ensures r == Published ==> Lookup(fs.files, resolve(dec)) == Some(Flat(source))
  {
    var native := Channel(Rust, aead, key, AdOf(aad));
    var s;
    ghost var nonces;
    s, nonces := PushStream.Seal(aead, key, aad, c, source);
    RoundTrip(native.(layer := Dart), native, Flat(source), c);
    ChunkCount(Flat(source), c);
    fs := new FileSystem(files[resolve(enc) := Flat(s.frames)], reliable);
    r := Run(fs, resolve, OpenFn, native, c, enc, dec);
  }

  /** What the Dart stream makes of its input, and what the native pipeline leaves in its
      output file and reports. */
  ghost predicate SameOutcome(o: PushStream.PushResult, rc: Status, written: Option<bytes>) {
    && o.Finished? && written == Some(Flat(o.frames))
    && match o.verdict
       case Accepted => rc == Ok
       case Malformed => rc == InvalidCiphertext
       case Unauthentic => rc == AuthFailed
       case Running => false
  }

  /** One byte string, genuine or not, split into events for the Dart stream and read from a
      file by the native pipeline, under an arbitrary AEAD: the native status always fits
      the verdict, an output reported complete is the plaintext of the stream, and on a
      reliable disk both release the same plaintext with the same outcome. */
  method OpenBothWays(fs: FileSystem, aead: Aead, key: bytes, aad: Option<bytes>, c: pos,
                      source: seq<bytes>, input: File, output: File)
    returns (o: PushStream.PushResult, rc: Status)
    requires Lookup(fs.files, input) == Some(Flat(source)) && input != output
    requires OpenableCount(|Flat(source)|, c + TAG_LEN) <= TWO63
    modifies fs
    ensures o.Finished?
    ensures rc == Io || SameOutcome(o, rc, if rc == Ok then Lookup(fs.files, output) else Some(Flat(o.frames)))
    ensures fs.reliable ==> SameOutcome(o, rc, Lookup(fs.files, output))
    ensures output in fs.files ==>
              Lookup(fs.files, output) == Lookup(old(fs.files), output) || fs.files[output] <= Flat(o.frames)
  {
    var native := Channel(Rust, aead, key, AdOf(aad));
    OpenersAgree(native, native.(layer := Dart), Flat(source), c);
    OpenedWithin(native.Cipher(), Flat(source), c);
    o := PushStream.OpenStream(aead, key, aad, c, source);
    rc := OpenFile(fs, native, c, input, output);
  }

  lemma OpenedWithin(fc: FrameCipher, bs: bytes, c: pos)
    ensures |Open(fc, bs, c).out| <= OpenableCount(|bs|, c + TAG_LEN)
    ensures Open(fc, bs, c).verdict != Running
  {
    OpenedCount(fc, 0, bs, c + TAG_LEN);
    OpenMapsBlocks(fc, bs, c);
  }
}
