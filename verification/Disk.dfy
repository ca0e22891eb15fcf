/** The file system, the buffered reader and the buffered writer under the file pipeline.
    Every operation may fail, reads and writes may be short, and every state the disk
    passes through is recorded, so that a crash between any two steps is covered. */
module Disk {
  import opened Bytes

  /** A file by its canonical name: equal names mean one file. */
  type File = string
  type Files = map<File, bytes>

  /** The two disks hold the same files, except possibly at p. */
  ghost predicate SameExcept(a: Files, b: Files, p: File) {
    forall q :: q != p ==> (q in a <==> q in b) && (q in a ==> a[q] == b[q])
  }

  /** Only p was touched, and p holds what it did before or a prefix of `bound`. */
  ghost predicate Staged(before: Files, now: Files, p: File, bound: bytes) {
    && SameExcept(before, now, p)
    && (p in now ==> (p in before && now[p] == before[p]) || now[p] <= bound)
  }

  lemma StagedGrows(before: Files, now: Files, p: File, bound: bytes, bound': bytes)
    requires Staged(before, now, p, bound) && bound <= bound'
    ensures Staged(before, now, p, bound')
  {
  }

  class FileSystem {
    var files: Files
    const reliable: bool            // no operation fails
    ghost var history: seq<Files>   // every state so far, the latest last
    ghost var renames: seq<bool>    // how every renaming so far came out
    ghost var deletes: seq<bool>    // and every deletion

    constructor (files: Files, reliable: bool)
      ensures this.files == files && history == [files] && this.reliable == reliable && renames == deletes == []
    {
      this.files, this.reliable, history, renames, deletes := files, reliable, [files], [], [];
    }

    /** Creates or truncates a file. */
    method Create(p: File) returns (ok: bool)
      modifies `files, `history
      ensures reliable ==> ok
      ensures files == if ok then old(files)[p := []] else old(files)
      ensures history == old(history) + [files]
    {
      ok := *;
      if ok || reliable {
        ok := true;
        files := files[p := []];
      }
      history := history + [files];
    }

    /** Appends some non-empty part of the data, or fails. */
    method Write(p: File, data: bytes) returns (n: int)
      requires p in files && data != []
      modifies `files, `history
      ensures if n == -1 then !reliable else 1 <= n <= |data|
      ensures files == if n == -1 then old(files) else old(files)[p := old(files)[p] + data[..n]]
      ensures history == old(history) + [files]
    {
      n := *;
      if !(1 <= n <= |data|) {
        n := if reliable then |data| else -1;
      }
      if n != -1 {
        files := files[p := files[p] + data[..n]];
      }
      history := history + [files];
    }

    method Delete(p: File) returns (ok: bool)
      modifies `files, `history, `deletes
      ensures reliable ==> ok
      ensures files == if ok then old(files) - {p} else old(files)
      ensures history == old(history) + [files]
      ensures deletes == old(deletes) + [ok]
    {
      ok := *;
      if ok || reliable {
        ok := true;
        files := files - {p};
      }
      history := history + [files];
      deletes := deletes + [ok];
    }

    /** Atomic replacement of `to`; fails when there is nothing to move, or for any other
        reason, and then changes nothing. */
    method Rename(from: File, to: File) returns (ok: bool)
      modifies `files, `history, `renames
      ensures ok ==> from in old(files)
      ensures reliable && from in old(files) ==> ok
      ensures files == if ok then (old(files) - {from})[to := old(files)[from]] else old(files)
      ensures history == old(history) + [files]
      ensures renames == old(renames) + [ok]
    {
      ok := *;
      ok := (ok || reliable) && from in files;
      if ok {
        files := (files - {from})[to := files[from]];
      }
      history := history + [files];
      renames := renames + [ok];
    }
  }

  /** A reader over a file nobody else writes to; end of file is therefore sticky. */
  class Reader {
    const contents: bytes
    const reliable: bool
    var pos: nat

    ghost predicate Valid()
      reads this
    {
      pos <= |contents|
    }

    ghost function Rest(): bytes
      requires Valid()
      reads this
    {
      contents[pos..]
    }

    constructor (contents: bytes, reliable: bool)
      ensures Valid() && this.contents == contents && this.reliable == reliable && pos == 0
    {
      this.contents, this.reliable, pos := contents, reliable, 0;
    }

    /** Reads into buf[from..]: -1 on an I/O error, 0 only at end of file or when there is
        no room, otherwise any number of bytes from 1 up. */
    method Read(buf: array<byte>, from: nat) returns (n: int)
      requires Valid() && from <= buf.Length
      modifies this`pos, buf
      ensures Valid()
      ensures n >= if reliable then 0 else -1
      ensures n == 0 ==> from == buf.Length || old(Rest()) == []
      ensures n > 0 ==> n <= buf.Length - from && n <= |old(Rest())|
      ensures buf[..from] == old(buf[..from])
      ensures if n <= 0 then pos == old(pos)
              else pos == old(pos) + n && buf[from..from + n] == old(Rest())[..n]
    {
      var room := Min(buf.Length - from, |contents| - pos);
      if room == 0 {
        return 0;
      }
      n := *;
      if !(1 <= n <= room) {
        n := if reliable then room else -1;
      }
      if n > 0 {
        for j := 0 to n
          invariant pos == old(pos)
          invariant buf[..from + j] == old(buf[..from]) + contents[pos..pos + j]
        {
          buf[from + j] := contents[pos + j];
          assert buf[..from + j + 1] == buf[..from + j] + [contents[pos + j]];
        }
        assert buf[from..from + n] == buf[..from + n][from..];
        assert contents[pos..pos + n] == contents[pos..][..n];
        pos := pos + n;
      }
    }
  }

  /** A buffered writer appending to one file. `parts` are the pieces it accepted. */
  class Writer {
    const fs: FileSystem
    const file: File
    var buffer: bytes
    ghost var parts: seq<bytes>
    ghost const before: Files     // the disk when the run started
    ghost const since: nat        // where the run starts in the history

    /** What is on disk plus what is buffered is what was accepted; and in every state of
        the disk since the run started only this file differs, holding a prefix of it. */
    ghost predicate Valid()
      reads this, fs
    {
      && file in fs.files && fs.files[file] + buffer == Flat(parts)
      && SameExcept(before, fs.files, file)
      && since <= |fs.history|
      && forall k :: since <= k < |fs.history| ==> Staged(before, fs.history[k], file, Flat(parts))
    }

    constructor (fs: FileSystem, file: File, ghost before: Files, ghost since: nat)
      requires file in fs.files && fs.files[file] == []
      requires SameExcept(before, fs.files, file) && since <= |fs.history|
      requires forall k :: since <= k < |fs.history| ==> Staged(before, fs.history[k], file, [])
      ensures Valid() && parts == [] && buffer == []
      ensures this.fs == fs && this.file == file && this.before == before && this.since == since
    {
      this.fs, this.file, this.before, this.since := fs, file, before, since;
      buffer, parts := [], [];
    }

    /** Writes out buffered bytes: all of them, or, if not asked to, any part. */
    method FlushBuffer(all: bool) returns (ok: bool)
      requires Valid()
      modifies this`buffer, fs`files, fs`history
      ensures Valid() && |buffer| <= |old(buffer)|
      ensures ok && all ==> buffer == []
      ensures fs.reliable ==> ok
      ensures old(fs.history) <= fs.history
    {
      ok := true;
      var more := true;
      while buffer != [] && more
        invariant Valid() && ok && |buffer| <= |old(buffer)|
        invariant old(fs.history) <= fs.history
        invariant all ==> more
        decreases |buffer|, more
      {
        ok := WriteSome();
        if !ok {
          return;
        }
        if !all {
          more := *;
        }
      }
    }

    method WriteSome() returns (ok: bool)
      requires Valid() && buffer != []
      modifies this`buffer, fs`files, fs`history
      ensures Valid()
      ensures if ok then |buffer| < |old(buffer)| else buffer == old(buffer)
      ensures fs.reliable ==> ok
      ensures old(fs.history) <= fs.history
    {
      var n := fs.Write(file, buffer);
      if n == -1 {
        return false;
      }
      assert old(fs.files)[file] + old(buffer)[..n] + old(buffer)[n..] == old(fs.files)[file] + old(buffer);
      buffer := buffer[n..];
      return true;
    }

    /** Accepts data; some of what is buffered may reach the disk on the way, or fail to. */
    method WriteAll(data: bytes) returns (ok: bool)
      requires Valid()
      modifies this`buffer, this`parts, fs`files, fs`history
      ensures Valid()
      ensures parts == old(parts) + [data]
      ensures fs.reliable ==> ok
      ensures old(fs.history) <= fs.history
    {
      Accept(data);
      ok := FlushBuffer(false);
    }

    /** Closing the file: what is still buffered is written if possible; errors are ignored. */
    method Drop()
      requires Valid()
      modifies this`buffer, fs`files, fs`history
      ensures Valid() && |buffer| <= |old(buffer)|
      ensures fs.reliable ==> buffer == []
      ensures old(fs.history) <= fs.history
    {
      var ignored := FlushBuffer(true);
    }

    /** Every state of the disk since the run started, seen against all that could ever
        have been accepted. */
    lemma AllStaged(bound: bytes)
      requires Valid() && Flat(parts) <= bound
      ensures forall k :: since <= k < |fs.history| ==> Staged(before, fs.history[k], file, bound)
    {
      forall k | since <= k < |fs.history|
        ensures Staged(before, fs.history[k], file, bound)
      {
        StagedGrows(before, fs.history[k], file, Flat(parts), bound);
      }
    }

    method Accept(data: bytes)
      requires Valid()
      modifies this`buffer, this`parts
      ensures Valid() && parts == old(parts) + [data]
    {
      FlatAppend(parts, [data]);
      FlatSingle(data);
      ghost var bound, bound' := Flat(parts), Flat(parts + [data]);
      forall k | since <= k < |fs.history|
        ensures Staged(before, fs.history[k], file, bound')
      {
        StagedGrows(before, fs.history[k], file, bound, bound');
      }
      buffer := buffer + data;
      parts := parts + [data];
    }
  }
}
