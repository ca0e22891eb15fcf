/** The two C entry points of stream_file.rs, from path to path. */
module FilePipeline {
  import opened Bytes
  import opened Channels
  import opened Framing
  import opened Disk
  import opened PullStream

  /** What the run reads. Creating the output truncates it, so a run whose output is its
      own input reads an empty file. */
  function InputSeen(files: Files, input: File, output: File): bytes
    requires input in files
  {
    if input == output then [] else files[input]
  }

  /** Now and in every state of the disk from `since` on, only p differs from `before`, and it
      holds what it did or a prefix of `bound`. */
  ghost predicate StagedSince(fs: FileSystem, since: nat, before: Files, p: File, bound: bytes)
    reads fs
  {
    && since <= |fs.history|
    && Staged(before, fs.files, p, bound)
    && forall k :: since <= k < |fs.history| ==> Staged(before, fs.history[k], p, bound)
  }

  /** `File::open` on the input, then `File::create` on the output; either may fail. */
  method OpenBoth(fs: FileSystem, input: File, output: File)
    returns (reader: Reader?, writer: Writer?)
    modifies fs`files, fs`history
    ensures old(fs.history) <= fs.history
    ensures (reader == null) == (writer == null)
    ensures fs.reliable && input in old(fs.files) ==> reader != null
    ensures input !in old(fs.files) ==> reader == null && fs.files == old(fs.files) && fs.history == old(fs.history)
    ensures reader == null ==> StagedSince(fs, |old(fs.history)|, old(fs.files), output, [])
    ensures reader != null ==>
              && fresh(reader) && fresh(writer) && input in old(fs.files)
              && reader.Valid() && reader.pos == 0 && reader.reliable == fs.reliable
              && reader.contents == InputSeen(old(fs.files), input, output)
              && writer.Valid() && writer.parts == [] && writer.buffer == []
              && writer.fs == fs && writer.file == output
              && writer.before == old(fs.files) && writer.since == |old(fs.history)|
  {
    reader, writer := null, null;
    var found: bool := *;
    if input !in fs.files || (!found && !fs.reliable) {
      return;
    }
    var created := fs.Create(output);
    if !created {
      return;
    }
    reader := new Reader(fs.files[input], fs.reliable);
    writer := new Writer(fs, output, old(fs.files), |old(fs.history)|);
  }

  /** `pqforge_stream_seal_file`. `frames` are the frames sealed, `nonces` those they were
      sealed under. */
  method SealFile(fs: FileSystem, ch: Channel, c: nat, input: File, output: File)
    returns (rc: Status, ghost frames: seq<bytes>, ghost nonces: seq<bytes>)
    requires ch.layer == Rust
    modifies fs`files, fs`history
    ensures old(fs.history) <= fs.history
    ensures |nonces| == |frames| && Distinct(nonces)
    ensures Numbered(ch.Cipher(), nonces, true) || (rc != Ok && Numbered(ch.Cipher(), nonces, false))
    ensures rc == Unaligned <==> c == 0
    ensures c > 0 && input !in old(fs.files) ==> rc == Io && fs.files == old(fs.files) && fs.history == old(fs.history)
    ensures fs.reliable && c > 0 && input in old(fs.files) ==> rc != Io
    ensures if c > 0 && input in old(fs.files) then
              var all := Sealed(ch.Cipher(), InputSeen(old(fs.files), input, output), c);
              && SealOutcome(rc, all, frames)
              && StagedSince(fs, |old(fs.history)|, old(fs.files), output, Flat(all))
              && Staged(old(fs.files), fs.files, output, Flat(frames))
              && (rc == Ok ==> output in fs.files && fs.files[output] == Flat(all))
              && (fs.reliable && |all| < TWO64 ==> rc == Ok)
            else frames == [] && StagedSince(fs, |old(fs.history)|, old(fs.files), output, [])
  {
    frames, nonces := [], [];
    if c == 0 {
      return Unaligned, frames, nonces;
    }
    ghost var fc := ch.Cipher();
    var reader, writer := OpenBoth(fs, input, output);
    if reader == null || writer == null {
      return Io, frames, nonces;
    }
    rc, nonces := SealLoop(reader, writer, ch, fc, c);
    frames := writer.parts;
    writer.Drop();
    FlatPrefix(frames, Sealed(fc, reader.contents, c));
    writer.AllStaged(Flat(Sealed(fc, reader.contents, c)));
    SealNonces(ch, fc, nonces, rc == Ok);
  }

  lemma SealNonces(ch: Channel, fc: FrameCipher, nonces: seq<bytes>, done: bool)
    requires ch.layer == Rust && fc == ch.Cipher() && |nonces| <= TWO64
    requires Numbered(fc, nonces, true) || (!done && Numbered(fc, nonces, false))
    ensures Distinct(nonces)
  {
    if Numbered(fc, nonces, true) {
      NumberedIsDistinct(ch, fc, nonces, true);
    } else {
      NumberedIsDistinct(ch, fc, nonces, false);
    }
  }

  /** The opening loop on open files, and the writer's end: whatever it did, every state of
      the disk holds a prefix of what is released. */
  method OpenAndDrop(reader: Reader, writer: Writer, ch: Channel, ghost fc: FrameCipher, c: pos)
    returns (rc: Status)
    requires ch.layer == Rust && Implements(ch, fc)
    requires reader.Valid() && reader.pos == 0 && writer.Valid() && writer.parts == [] && writer.buffer == []
    modifies reader, writer`buffer, writer`parts, writer.fs`files, writer.fs`history
    ensures writer.Valid() && old(writer.fs.history) <= writer.fs.history
    ensures OpenOutcome(rc, Open(fc, reader.contents, c), writer.parts)
    ensures reader.reliable && writer.fs.reliable ==> rc != Io
    ensures rc == Ok || writer.fs.reliable ==> writer.buffer == []
    ensures Flat(writer.parts) <= Flat(Open(fc, reader.contents, c).out)
    ensures forall k :: writer.since <= k < |writer.fs.history| ==>
              Staged(writer.before, writer.fs.history[k], writer.file, Flat(Open(fc, reader.contents, c).out))
  {
    rc := OpenLoop(reader, writer, ch, fc, c);
    writer.Drop();
    FlatPrefix(writer.parts, Open(fc, reader.contents, c).out);
    writer.AllStaged(Flat(Open(fc, reader.contents, c).out));
  }

  /** `pqforge_stream_open_file`. */
  method OpenFile(fs: FileSystem, ch: Channel, c: nat, input: File, output: File) returns (rc: Status)
    requires ch.layer == Rust
    modifies fs`files, fs`history
    ensures old(fs.history) <= fs.history
    ensures rc == Unaligned <==> c == 0
    ensures input !in old(fs.files) ==> fs.files == old(fs.files) && fs.history == old(fs.history)
    ensures fs.reliable && c > 0 && input in old(fs.files) ==> rc != Io
    ensures c > 0 && rc != Io ==>
              && input in old(fs.files)
              && var o := Open(ch.Cipher(), InputSeen(old(fs.files), input, output), c);
                 match rc
                 case Ok => o.verdict == Accepted && |o.out| < TWO64
                            && output in fs.files && fs.files[output] == Flat(o.out)
                 case InvalidCiphertext => o.verdict == Malformed
                 case AuthFailed => o.verdict == Unauthentic
                 case _ => |o.out| >= TWO64
    ensures if c > 0 && input in old(fs.files) then
              StagedSince(fs, |old(fs.history)|, old(fs.files), output,
                          Flat(Open(ch.Cipher(), InputSeen(old(fs.files), input, output), c).out))
            else StagedSince(fs, |old(fs.history)|, old(fs.files), output, [])
    ensures fs.reliable && c > 0 && input in old(fs.files) ==>
              var o := Open(ch.Cipher(), InputSeen(old(fs.files), input, output), c);
              |o.out| < TWO64 ==> output in fs.files && fs.files[output] == Flat(o.out)
  {
    if c == 0 {
      return Unaligned;
    }
    ghost var fc := ch.Cipher();
    var reader, writer := OpenBoth(fs, input, output);
    if reader == null || writer == null {
      return Io;
    }
    rc := OpenAndDrop(reader, writer, ch, fc, c);
  }
}
