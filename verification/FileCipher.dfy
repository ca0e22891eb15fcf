/** The publish protocol of lib/src/api/file_cipher.dart around the native pipeline: write
    to a temporary file, rename it over the output on success, remove it on failure. */
module FileCipher {
  import opened Bytes
  import opened Channels
  import opened Chunking
  import opened Framing
  import opened Layers
  import opened Integrity
  import opened LongStreams
  import opened Disk
  import opened PullStream
  import opened FilePipeline

  datatype Native = SealFn | OpenFn

  datatype RunResult = ArgumentError | Threw(status: Status) | RenameFailed | Published

  type Path = string

  function TmpPath(outputPath: Path): Path {
    outputPath + ".pqforge-tmp"
  }

  /** The files a run writes. Which file a path names is up to the file system: one file may
      have many paths. */
  datatype Target = Target(output: File, tmp: File)

  function TargetOf(resolve: Path -> File, outputPath: Path): Target {
    Target(resolve(outputPath), resolve(TmpPath(outputPath)))
  }

  /** What a run is after: everything the native function writes for its input if nothing
      stops it, and whether it can then succeed. */
  datatype Goal = Goal(total: bytes, attainable: bool)

  function GoalOf(fn: Native, ch: Channel, c: pos, input: bytes): Goal {
    match fn
    case SealFn =>
      var frames := Sealed(ch.Cipher(), input, c);
      Goal(Flat(frames), |frames| < TWO64)
    case OpenFn =>
      var o := Open(ch.Cipher(), input, c);
      Goal(Flat(o.out), o.verdict == Accepted && |o.out| < TWO64)
  }

  function RunGoal(fn: Native, ch: Channel, chunkSize: int, files: Files, input: File, tmp: File): Goal {
    if chunkSize > 0 && input in files
    then GoalOf(fn, ch, chunkSize, InputSeen(files, input, tmp))
    else Goal([], false)
  }

  function Lookup(files: Files, f: File): Option<bytes> {
    if f in files then Some(files[f]) else None
  }

  /** The atomicity claim about one state of the disk: the output holds what it held before,
      or the complete new contents (unless it is the temporary file itself); the temporary
      file what it held before, or a prefix of them; and no other file changed. */
  ghost predicate Atomic(before: Files, now: Files, target: Target, goal: Goal) {
    && (target.output != target.tmp ==>
          || Lookup(now, target.output) == Lookup(before, target.output)
          || (goal.attainable && Lookup(now, target.output) == Some(goal.total)))
    && (target.tmp in now ==>
          Lookup(now, target.tmp) == Lookup(before, target.tmp) || now[target.tmp] <= goal.total)
    && forall q :: q != target.output && q != target.tmp ==> Lookup(now, q) == Lookup(before, q)
  }

  /** Every state of the disk from `since` on: a crash may leave any one of them. */
  ghost predicate AtomicSince(fs: FileSystem, since: nat, before: Files, target: Target, goal: Goal)
    reads fs
  {
    since <= |fs.history|
    && forall k :: since <= k < |fs.history| ==> Atomic(before, fs.history[k], target, goal)
  }

  /** Which status a sealing run ends with: an I/O error only if the disk can fail, a counter
      overflow exactly for a stream of 2^64 frames or more otherwise, and no other failure. */
  ghost predicate SealStatus(rc: Status, frames: seq<bytes>, reliable: bool) {
    match rc
    case Ok => (|frames| < 0x1_0000_0000_0000_0000)
    case Internal => |frames| >= 0x1_0000_0000_0000_0000
    case Io => !reliable
    case _ => false
  }

  /** Which status an opening run ends with: an authentication or format failure is reported
      only for, and, where no I/O error can occur, exactly for an input that has one. */
  ghost predicate OpenStatus(rc: Status, o: Opened, reliable: bool) {
    match rc
    case Ok => (o.verdict == Accepted && |o.out| < 0x1_0000_0000_0000_0000)
    case AuthFailed => o.verdict == Unauthentic
    case InvalidCiphertext => o.verdict == Malformed
    case Internal => |o.out| >= 0x1_0000_0000_0000_0000
    case Io => !reliable
    case Unaligned => false
  }

  ghost predicate FitsInput(fn: Native, rc: Status, ch: Channel, c: pos, input: bytes, reliable: bool) {
    match fn
    case SealFn => SealStatus(rc, Sealed(ch.Cipher(), input, c), reliable)
    case OpenFn => OpenStatus(rc, Open(ch.Cipher(), input, c), reliable)
  }

  /** Touching only the temporary file is invisible at the output path. */
  lemma StagedIsAtomic(before: Files, now: Files, target: Target, goal: Goal)
    requires Staged(before, now, target.tmp, goal.total)
    ensures Atomic(before, now, target, goal)
  {
  }

  /** `_deleteQuiet` on the temporary file: only if it exists, and failures are swallowed. */
  method DeleteQuiet(fs: FileSystem, target: Target, ghost since: nat, ghost before: Files, ghost goal: Goal)
    requires Staged(before, fs.files, target.tmp, goal.total)
    requires AtomicSince(fs, since, before, target, goal)
    modifies fs`files, fs`history, fs`deletes
    ensures Staged(before, fs.files, target.tmp, goal.total)
    ensures AtomicSince(fs, since, before, target, goal)
    ensures fs.files == old(fs.files) - {target.tmp}
            || (fs.files == old(fs.files) && !fs.reliable && fs.deletes == old(fs.deletes) + [false])
  {
    if target.tmp in fs.files {
      var ignored := fs.Delete(target.tmp);
      StagedIsAtomic(before, fs.files, target, goal);
    } else {
      assert fs.files - {target.tmp} == fs.files;
    }
  }

  /** The rename, and the clean-up when it fails. */
  method Publish(fs: FileSystem, target: Target, ghost since: nat, ghost before: Files, ghost goal: Goal)
    returns (renamed: bool)
    requires Staged(before, fs.files, target.tmp, goal.total)
    requires AtomicSince(fs, since, before, target, goal)
    requires goal.attainable && Lookup(fs.files, target.tmp) == Some(goal.total)
    modifies fs
    ensures AtomicSince(fs, since, before, target, goal)
    ensures if renamed then
              && (target.output != target.tmp ==> target.tmp !in fs.files)
              && Lookup(fs.files, target.output) == Some(goal.total)
              && Atomic(before, fs.files, target, goal)
            else
              && Staged(before, fs.files, target.tmp, goal.total)
              && (target.tmp !in fs.files || fs.deletes == old(fs.deletes) + [false])
    ensures fs.reliable ==> renamed
    ensures fs.renames == old(fs.renames) + [renamed]
    ensures renamed ==> fs.deletes == old(fs.deletes)
  {
    renamed := fs.Rename(target.tmp, target.output);
    if !renamed {
      StagedIsAtomic(before, fs.files, target, goal);
      DeleteQuiet(fs, target, since, before, goal);
    }
  }

  /** The native call. On success the temporary file holds the whole result; otherwise what
      it did before or a prefix of the result, after an opening call on a reliable disk all
      of it. */
  method CallNative(fs: FileSystem, fn: Native, ch: Channel, c: pos, input: File, target: Target,
                    ghost goal: Goal)
    returns (rc: Status)
    requires ch.layer == Rust && goal == RunGoal(fn, ch, c, fs.files, input, target.tmp)
    modifies fs`files, fs`history
    ensures Staged(old(fs.files), fs.files, target.tmp, goal.total)
    ensures AtomicSince(fs, |old(fs.history)|, old(fs.files), target, goal)
    ensures rc == Ok ==> goal.attainable && Lookup(fs.files, target.tmp) == Some(goal.total)
    ensures fs.reliable && goal.attainable ==> rc == Ok
    ensures input !in old(fs.files) ==> rc == Io && fs.files == old(fs.files)
    ensures fs.reliable && fn == OpenFn && input in old(fs.files)
            && |Open(ch.Cipher(), InputSeen(old(fs.files), input, target.tmp), c).out| < TWO64 ==>
              Lookup(fs.files, target.tmp) == Some(goal.total)
    ensures input in old(fs.files) ==>
              FitsInput(fn, rc, ch, c, InputSeen(old(fs.files), input, target.tmp), fs.reliable)
    ensures fn == SealFn ==> rc == Ok || rc == Io || rc == Internal
  {
    match fn {
      case SealFn =>
        ghost var frames, nonces;
        rc, frames, nonces := SealFile(fs, ch, c, input, target.tmp);
      case OpenFn =>
        rc := OpenFile(fs, ch, c, input, target.tmp);
    }
    forall k | |old(fs.history)| <= k < |fs.history|
      ensures Atomic(old(fs.files), fs.history[k], target, goal)
    {
      StagedIsAtomic(old(fs.files), fs.history[k], target, goal);
    }
  }

  /** `_run`. A crash may happen in any state the disk passes through; in each of them the
      output holds its old contents or the complete new ones, as long as the temporary path
      names another file. */
  method Run(fs: FileSystem, resolve: Path -> File, fn: Native, ch: Channel, chunkSize: int,
             inputPath: Path, outputPath: Path)
    returns (r: RunResult)
    requires ch.layer == Rust
    modifies fs
    ensures var target := Target(resolve(outputPath), resolve(outputPath + ".pqforge-tmp"));
            var goal := RunGoal(fn, ch, chunkSize, old(fs.files), resolve(inputPath), target.tmp);
            && AtomicSince(fs, |old(fs.history)|, old(fs.files), target, goal)
            && Atomic(old(fs.files), fs.files, target, goal)
            && (r == Published ==>
                  && goal.attainable && Lookup(fs.files, target.output) == Some(goal.total)
                  && (target.output != target.tmp ==> target.tmp !in fs.files))
            && (r == RenameFailed ==> goal.attainable)
            && (fs.reliable ==> (r == Published <==> goal.attainable))
    ensures fs.renames == old(fs.renames)
                        + (match r case Published => [true] case RenameFailed => [false] case _ => [])
    ensures r == ArgumentError <==> chunkSize <= 0
    ensures r == ArgumentError ==> fs.files == old(fs.files)
    ensures r != Published ==> SameExcept(old(fs.files), fs.files, resolve(outputPath + ".pqforge-tmp"))
    ensures chunkSize > 0 && resolve(inputPath) !in old(fs.files) ==>
              && r == Threw(Io)
              && (fs.files == old(fs.files) || fs.files == old(fs.files) - {resolve(outputPath + ".pqforge-tmp")})
    ensures r.Threw? ==>
              && r.status != Ok && (fn == SealFn ==> r.status == Io || r.status == Internal)
              && (resolve(inputPath) in old(fs.files) ==>
                    FitsInput(fn, r.status, ch, chunkSize,
                              InputSeen(old(fs.files), resolve(inputPath), resolve(outputPath + ".pqforge-tmp")),
                              fs.reliable))
    ensures if r == Published || r == ArgumentError then fs.deletes == old(fs.deletes)
            else resolve(outputPath + ".pqforge-tmp") !in fs.files
                 || (!fs.reliable && fs.deletes == old(fs.deletes) + [false])
  {
    var input, target := resolve(inputPath), TargetOf(resolve, outputPath);
    ghost var goal := RunGoal(fn, ch, chunkSize, fs.files, input, target.tmp);
    ghost var since, before := |fs.history|, fs.files;
    if chunkSize <= 0 {
      return ArgumentError;
    }
    var rc := CallNative(fs, fn, ch, chunkSize, input, target, goal);
    if rc != Ok {
      DeleteQuiet(fs, target, since, before, goal);
      StagedIsAtomic(before, fs.files, target, goal);
      return Threw(rc);
    }
    var renamed := Publish(fs, target, since, before, goal);
    if !renamed {
      StagedIsAtomic(before, fs.files, target, goal);
      return RenameFailed;
    }
    return Published;
  }

  // ---- what publication means ----------------------------------------------

  /** A sealing run publishes the seal of the file it was given exactly when its input is
      not its own temporary file, under whatever path; otherwise it has truncated the input
      and publishes the seal of the empty string (which is the same only for an empty input). */
  lemma SealPublishesInputIff(ch: Channel, c: pos, resolve: Path -> File, files: Files,
                              inputPath: Path, outputPath: Path)
    requires Sized(ch.aead) && resolve(inputPath) in files
    ensures var input, tmp := resolve(inputPath), resolve(TmpPath(outputPath));
            RunGoal(SealFn, ch, c, files, input, tmp) == GoalOf(SealFn, ch, c, files[input])
            <==> input != tmp || files[input] == []
  {
    var input := files[resolve(inputPath)];
    SizedCipher(ch);
    SealedLengthAndReframing(ch.Cipher(), 0, input, c);
    SealedLengthAndReframing(ch.Cipher(), 0, [], c);
    SealedLengthStrict(0, |input|, c);
  }

  /** Such an input: one that no comparison of path strings would catch. */
  lemma SealOverOwnInputExample(ch: Channel, resolve: Path -> File)
    requires Sized(ch.aead) && resolve("./o.pqforge-tmp") == resolve("o.pqforge-tmp")
    ensures var input, tmp := resolve("./o.pqforge-tmp"), resolve(TmpPath("o"));
            RunGoal(SealFn, ch, 1, map[input := [7]], input, tmp) != GoalOf(SealFn, ch, 1, [7])
  {
    assert TmpPath("o") == "o.pqforge-tmp";
    var files := map[resolve("./o.pqforge-tmp") := [7]];
    SealPublishesInputIff(ch, 1, resolve, files, "./o.pqforge-tmp", "o");
    assert files[resolve("./o.pqforge-tmp")] == [7];
  }

  /** An opening run whose input is its own temporary file never publishes. */
  lemma OpenOverOwnInput(ch: Channel, c: pos, files: Files, input: File, tmp: File)
    requires input == tmp
    ensures !RunGoal(OpenFn, ch, c, files, input, tmp).attainable
  {
  }

  /** Under AEAD integrity, whatever an opening run can publish is the full plaintext of the
      stream sealed under its key, and its input was exactly that stream. */
  lemma OpenPublishesGenuine(issued: map<bytes, SealedStream>, ch: Channel, c: pos, files: Files,
                             input: File, tmp: File)
    requires Sized(ch.aead) && Authentic(ch.aead, issued) && InRange(issued, ch.key)
    requires RunGoal(OpenFn, ch, c, files, input, tmp).attainable
    ensures ch.key in issued && input in files
    ensures RunGoal(OpenFn, ch, c, files, input, tmp).total == issued[ch.key].p
    ensures files[input] == Flat(FramesOf(ch.aead, ch.key, issued[ch.key]))
  {
    var seen := InputSeen(files, input, tmp);
    AcceptedYieldsPlaintext(ch.aead, issued, ch, seen, c);
    AcceptedIff(ch.aead, issued, ch, seen, c);
  }

  /** And in no state the disk passes through during an opening run, failing or not, does
      even the temporary file hold anything new but a prefix of that plaintext: `now` is any
      state of which Run ensures `Atomic`. That is so for every stream whose plaintext stays
      in place, which are all those within both counter ranges, all Rust-sealed ones a Rust
      run opens, and the Dart-sealed ones past 2^63 frames whose chunks recur. */
  lemma TemporaryHoldsGenuinePrefix(issued: map<bytes, SealedStream>, ch: Channel, chunkSize: int,
                                    before: Files, now: Files, input: File, target: Target)
    requires Authentic(ch.aead, issued)
    requires ch.key in issued && ch.ad == issued[ch.key].ad ==>
               Producible(issued[ch.key]) && PlaintextStays(issued[ch.key], ch.layer)
    requires Atomic(before, now, target, RunGoal(OpenFn, ch, chunkSize, before, input, target.tmp))
    ensures target.tmp in now ==>
              || Lookup(now, target.tmp) == Lookup(before, target.tmp)
              || now[target.tmp] == []
              || (ch.key in issued && now[target.tmp] <= issued[ch.key].p)
  {
    if chunkSize > 0 && input in before {
      var seen := InputSeen(before, input, target.tmp);
      if ch.key in issued && ch.ad == issued[ch.key].ad {
        YieldsInPlace(ch.aead, issued, ch, seen, chunkSize);
      } else {
        NothingOpens(ch.aead, issued, ch, seen, chunkSize);
      }
    }
  }

  /** And for no others: what CallNative leaves in the temporary file, on a reliable disk all
      of the goal, starts the plaintext for every input file exactly if the plaintext stays
      in place. */
  lemma TemporaryPrefixIff(issued: map<bytes, SealedStream>, ch: Channel, input: File, tmp: File)
    requires Setting(ch.aead, issued, ch) && Producible(issued[ch.key]) && input != tmp
    ensures var s := issued[ch.key];
            (forall files: Files :: RunGoal(OpenFn, ch, s.c, files, input, tmp).total <= s.p)
            <==> PlaintextStays(s, ch.layer)
  {
    var s := issued[ch.key];
    PlaintextSafetyIff(ch.aead, issued, ch);
    if PlaintextStays(s, ch.layer) {
      forall files: Files
        ensures RunGoal(OpenFn, ch, s.c, files, input, tmp).total <= s.p
      {
      }
    } else {
      var bs := LeavesPlaintext(ch.aead, issued, ch);
      var files: Files := map[input := bs];
      assert RunGoal(OpenFn, ch, s.c, files, input, tmp).total == Flat(Open(ch.Cipher(), bs, s.c).out);
    }
  }

  /** Sealing a file and opening the result publishes the original contents, and on a
      disk where nothing fails both runs succeed. */
  method RoundTripFiles(fs: FileSystem, resolve: Path -> File, ch: Channel, c: pos,
                        plain: Path, enc: Path, dec: Path)
    returns (r1: RunResult, r2: RunResult)
    requires ch.layer == Rust && Sized(ch.aead) && Correct(ch.aead)
    requires resolve(plain) in fs.files
    requires resolve(plain) != resolve(TmpPath(enc)) && resolve(enc) != resolve(TmpPath(dec))
    modifies fs
    ensures r1 == Published && r2 == Published ==> Lookup(fs.files, resolve(dec)) == Some(old(fs.files)[resolve(plain)])
    ensures fs.reliable && FrameCount(|old(fs.files)[resolve(plain)]|, c) < TWO64 ==> r1 == Published && r2 == Published
  {
    ghost var p := fs.files[resolve(plain)];
    SealFromMapsChunks(ch.Cipher(), 0, p, c);
    ChunkCount(p, c);
    r1 := Run(fs, resolve, SealFn, ch, c, plain, enc);
    r2 := ArgumentError;
    if r1 == Published {
      RoundTrip(ch, ch, p, c);
      r2 := Run(fs, resolve, OpenFn, ch, c, enc, dec);
    }
  }
}
