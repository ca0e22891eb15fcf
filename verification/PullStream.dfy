/** The pull-based engine of rust/crates/pqforge_core/src/crypto/stream_file.rs. It reads
    one block ahead, from a file that may be read in pieces of any size. */
module PullStream {
  import opened Bytes
  import opened Channels
  import opened Framing
  import opened Steps
  import opened Disk

  datatype Status = Ok | InvalidCiphertext | AuthFailed | Unaligned | Io | Internal

  /** What reading a block comes to: an I/O error, or up to `size` bytes. */
  datatype BlockResult = ReadError | Got(block: Option<bytes>)

  /** `read_block`: however short the reads are, the result is the next `size` bytes, fewer
      only at the end of the file, and None exactly there. */
  method ReadBlock(reader: Reader, size: pos) returns (r: BlockResult)
    requires reader.Valid()
    modifies reader
    ensures reader.Valid()
    ensures reader.reliable ==> r.Got?
    ensures r.Got? ==> r.block == Block(old(reader.Rest()), size)
    ensures r.Got? ==> reader.Rest() == AfterBlock(old(reader.Rest()), size)
  {
    var buf := new byte[size](_ => 0);
    var total := 0;
    ghost var rest := reader.Rest();
    while total < size
      invariant reader.Valid() && total <= size && total <= |rest|
      invariant reader.Rest() == rest[total..]
      invariant buf[..total] == rest[..total]
      decreases size - total
    {
      var n := reader.Read(buf, total);
      if n == -1 {
        return ReadError;
      }
      if n == 0 {
        break;
      }
      assert rest[..total + n] == rest[..total] + rest[total..][..n];
      assert buf[..total + n] == buf[..total] + buf[total..total + n];
      total := total + n;
    }
    if total == 0 {
      return Got(None);
    }
    return Got(Some(buf[..total]));
  }

  /** `next_counter`: a checked u64 increment. */
  function NextCounter(counter: nat): (r: Option<nat>)
    ensures match r
            case Some(next) => next == counter + 1 && next < TWO64
            case None => counter + 1 >= TWO64
  {
    if counter + 1 < TWO64 then Some(counter + 1) else None
  }

  // ---- nonces used in one run ----------------------------------------------

  ghost predicate Distinct(nonces: seq<bytes>) {
    forall j, k :: 0 <= j < k < |nonces| ==> nonces[j] != nonces[k]
  }

  /** Frame k used nonce k; only the latest may have carried the last-flag. */
  ghost predicate Numbered(fc: FrameCipher, nonces: seq<bytes>, last: bool) {
    forall k :: 0 <= k < |nonces| ==> nonces[k] == fc.nonce(k, last && k == |nonces| - 1)
  }

  lemma NumberedIsDistinct(ch: Channel, fc: FrameCipher, nonces: seq<bytes>, last: bool)
    requires ch.layer == Rust && Implements(ch, fc)
    requires |nonces| <= TWO64 && Numbered(fc, nonces, last)
    ensures Distinct(nonces)
  {
    forall j, k | 0 <= j < k < |nonces|
      ensures nonces[j] != nonces[k]
    {
      var flag := last && k == |nonces| - 1;
      NonceIdentifiesFrame(ch, ch, j, false, k, flag);
      assert fc.nonce(j, false) == ch.Nonce(j, false);
      assert fc.nonce(k, flag) == ch.Nonce(k, flag);
    }
  }

  // ---- frames --------------------------------------------------------------

  method FrameNonce(ch: Channel, ghost fc: FrameCipher, counter: nat, last: bool, ghost text: bytes)
    returns (nonce: bytes)
    requires ch.layer == Rust && Implements(ch, fc)
    ensures nonce == fc.nonce(counter, last)
    ensures ch.aead.seal(ch.key, nonce, ch.ad, text) == fc.seal(counter, last, text)
    ensures ch.aead.open(ch.key, nonce, ch.ad, text) == fc.open(counter, last, text)
  {
    var n := StreamNonce(counter, last);
    nonce := n[..];
    FrameCalls(ch, fc, counter, last, nonce, text);
  }

  method SealFrame(writer: Writer, ch: Channel, ghost fc: FrameCipher, chunk: bytes, counter: nat, last: bool)
    returns (ok: bool, ghost nonce: bytes)
    requires writer.Valid() && ch.layer == Rust && Implements(ch, fc)
    modifies writer`buffer, writer`parts, writer.fs`files, writer.fs`history
    ensures writer.Valid() && old(writer.fs.history) <= writer.fs.history
    ensures writer.parts == old(writer.parts) + [fc.seal(counter, last, chunk)]
    ensures nonce == fc.nonce(counter, last)
    ensures writer.fs.reliable ==> ok
  {
    var n := FrameNonce(ch, fc, counter, last, chunk);
    nonce := n;
    ok := writer.WriteAll(ch.aead.seal(ch.key, n, ch.ad, chunk));
  }

  /** A frame that does not open writes nothing. */
  method OpenFrame(writer: Writer, ch: Channel, ghost fc: FrameCipher, frame: bytes, counter: nat, last: bool)
    returns (rc: Status)
    requires writer.Valid() && ch.layer == Rust && Implements(ch, fc)
    modifies writer`buffer, writer`parts, writer.fs`files, writer.fs`history
    ensures writer.Valid() && old(writer.fs.history) <= writer.fs.history
    ensures rc == Ok || rc == AuthFailed || (rc == Io && !writer.fs.reliable)
    ensures rc == AuthFailed <==> fc.open(counter, last, frame) == None
    ensures writer.parts
         == if rc == AuthFailed then old(writer.parts)
            else old(writer.parts) + [fc.open(counter, last, frame).value]
  {
    var nonce := FrameNonce(ch, fc, counter, last, frame);
    match ch.aead.open(ch.key, nonce, ch.ad, frame) {
      case None => rc := AuthFailed;
      case Some(p) =>
        var ok := writer.WriteAll(p);
        rc := if ok then Ok else Io;
    }
  }

  // ---- outcomes ------------------------------------------------------------

  /** How the frames written relate to the whole sealed stream, status by status. */
  ghost predicate SealOutcome(rc: Status, all: seq<bytes>, parts: seq<bytes>) {
    && parts <= all
    && match rc
       case Ok => (parts == all && |parts| < TWO64)
       case Internal => (|parts| == TWO64)
       case Io => true
       case _ => false
  }

  /** How the plaintext written relates to opening the whole input, status by status. */
  ghost predicate OpenOutcome(rc: Status, all: Opened, parts: seq<bytes>) {
    && parts <= all.out
    && match rc
       case Ok => (all == Opened(parts, Accepted) && |parts| < TWO64)
       case InvalidCiphertext => all == Opened(parts, Malformed)
       case AuthFailed => all == Opened(parts, Unauthentic)
       case Internal => (|parts| == TWO64)
       case Io => true
       case Unaligned => false
  }

  // ---- the loops -----------------------------------------------------------

  /** A non-empty block is in hand; it is full unless the file ended in it. */
  ghost predicate InHand(reader: Reader, held: bytes, size: pos)
    requires reader.Valid()
    reads reader
  {
    0 < |held| <= size && (|held| == size || reader.Rest() == [])
  }

  /** One round of the sealing loop: read ahead, then seal the held chunk, as the last one
      exactly if nothing was read. */
  method SealHeld(reader: Reader, writer: Writer, ch: Channel, ghost fc: FrameCipher, c: pos,
                  chunk: bytes, counter: nat, ghost all: seq<bytes>, ghost used: seq<bytes>)
    returns (rc: Status, next: Option<bytes>, bumped: nat, ghost nonces: seq<bytes>)
    requires ch.layer == Rust && Implements(ch, fc)
    requires reader.Valid() && writer.Valid() && InHand(reader, chunk, c)
    requires counter == |writer.parts| == |used| < TWO64 && Numbered(fc, used, false)
    requires SealLeft(fc, all, writer.parts, chunk + reader.Rest(), c)
    modifies reader, writer`buffer, writer`parts, writer.fs`files, writer.fs`history
    ensures reader.Valid() && writer.Valid() && old(writer.fs.history) <= writer.fs.history
    ensures (rc == Ok && next != None) || SealOutcome(rc, all, writer.parts)
    ensures reader.reliable && writer.fs.reliable ==> rc != Io
    ensures |nonces| == |writer.parts| <= TWO64
    ensures Numbered(fc, nonces, next == None) || (rc == Io && nonces == used)
    ensures rc == Ok ==> bumped == |writer.parts| < TWO64 && |reader.Rest()| <= |old(reader.Rest())|
    ensures rc == Ok && next != None ==>
              && InHand(reader, next.value, c) && |reader.Rest()| < |old(reader.Rest())|
              && SealLeft(fc, all, writer.parts, next.value + reader.Rest(), c)
  {
    ghost var rest := reader.Rest();
    bumped := counter;
    SealLeftStep(fc, all, writer.parts, chunk, rest, c);
    var r := ReadBlock(reader, c);
    if r.ReadError? {
      return Io, None, bumped, used;
    }
    next := r.block;
    var last := next == None;
    if !last {
      assert rest == next.value + reader.Rest();
    }
    ghost var nonce;
    var ok;
    ok, nonce := SealFrame(writer, ch, fc, chunk, counter, last);
    nonces := used + [nonce];
    if !ok {
      return Io, next, bumped, nonces;
    }
    match NextCounter(counter) {
      case None => rc := Internal;
      case Some(n) => rc, bumped := Ok, n;
    }
  }

  /** The sealing loop, entered with a first chunk in hand. */
  method SealChunks(reader: Reader, writer: Writer, ch: Channel, ghost fc: FrameCipher, c: pos,
                    first: bytes, ghost all: seq<bytes>)
    returns (rc: Status, ghost nonces: seq<bytes>)
    requires ch.layer == Rust && Implements(ch, fc)
    requires reader.Valid() && writer.Valid() && writer.parts == [] && InHand(reader, first, c)
    requires SealLeft(fc, all, [], first + reader.Rest(), c)
    modifies reader, writer`buffer, writer`parts, writer.fs`files, writer.fs`history
    ensures writer.Valid() && old(writer.fs.history) <= writer.fs.history
    ensures SealOutcome(rc, all, writer.parts)
    ensures reader.reliable && writer.fs.reliable ==> rc != Io
    ensures |nonces| == |writer.parts| <= TWO64
    ensures Numbered(fc, nonces, true) || (rc != Ok && Numbered(fc, nonces, false))
  {
    var held := Some(first);
    var counter := 0;
    nonces := [];
    rc := Ok;
    while held != None
      invariant reader.Valid() && writer.Valid() && old(writer.fs.history) <= writer.fs.history
      invariant rc == Ok && counter == |writer.parts| == |nonces| < TWO64 && Numbered(fc, nonces, held == None)
      invariant if held == None then writer.parts == all
                else InHand(reader, held.value, c)
                     && SealLeft(fc, all, writer.parts, held.value + reader.Rest(), c)
      decreases |reader.Rest()|, held != None
    {
      rc, held, counter, nonces := SealHeld(reader, writer, ch, fc, c, held.value, counter, all, nonces);
      if rc != Ok {
        return;
      }
    }
  }

  /** The body of `pqforge_stream_seal_file` once both files are open. Whatever happens,
      what was written is the sealed stream or a prefix of it, and frame k was sealed under
      nonce k; the run succeeds only if the checked counter never overflowed. */
  method SealLoop(reader: Reader, writer: Writer, ch: Channel, ghost fc: FrameCipher, c: pos)
    returns (rc: Status, ghost nonces: seq<bytes>)
    requires ch.layer == Rust && Implements(ch, fc)
    requires reader.Valid() && reader.pos == 0 && writer.Valid() && writer.parts == [] && writer.buffer == []
    modifies reader, writer`buffer, writer`parts, writer.fs`files, writer.fs`history
    ensures writer.Valid() && old(writer.fs.history) <= writer.fs.history
    ensures SealOutcome(rc, Sealed(fc, reader.contents, c), writer.parts)
    ensures reader.reliable && writer.fs.reliable ==> rc != Io
    ensures |nonces| == |writer.parts| <= TWO64
    ensures Numbered(fc, nonces, true) || (rc != Ok && Numbered(fc, nonces, false))
    ensures rc == Ok ==> writer.buffer == []
  {
    assert reader.Rest() == reader.contents;
    var r := ReadBlock(reader, c);
    if r.ReadError? {
      return Io, [];
    }
    if r.block == None {
      rc, nonces := SealEmpty(writer, ch, fc, c);
    } else {
      assert reader.contents == r.block.value + reader.Rest();
      SealLeftStart(fc, reader.contents, c);
      rc, nonces := SealChunks(reader, writer, ch, fc, c, r.block.value, Sealed(fc, reader.contents, c));
    }
    if rc == Ok {
      var flushed := writer.FlushBuffer(true);
      rc := if flushed then Ok else Io;
    }
  }

  /** Empty input: a single empty final frame. */
  method SealEmpty(writer: Writer, ch: Channel, ghost fc: FrameCipher, ghost c: pos)
    returns (rc: Status, ghost nonces: seq<bytes>)
    requires ch.layer == Rust && Implements(ch, fc)
    requires writer.Valid() && writer.parts == []
    modifies writer`buffer, writer`parts, writer.fs`files, writer.fs`history
    ensures writer.Valid() && old(writer.fs.history) <= writer.fs.history
    ensures rc == Ok || (rc == Io && !writer.fs.reliable)
    ensures writer.parts == Sealed(fc, [], c)
    ensures |nonces| == |writer.parts| == 1 && Numbered(fc, nonces, true)
  {
    var ok;
    ghost var nonce;
    ok, nonce := SealFrame(writer, ch, fc, [], 0, true);
    nonces := [nonce];
    rc := if ok then Ok else Io;
  }

  /** One round of the opening loop. */
  method OpenHeld(reader: Reader, writer: Writer, ch: Channel, ghost fc: FrameCipher, w: pos,
                  frame: bytes, counter: nat, ghost all: Opened)
    returns (rc: Status, next: Option<bytes>, bumped: nat)
    requires ch.layer == Rust && Implements(ch, fc)
    requires reader.Valid() && writer.Valid() && InHand(reader, frame, w)
    requires w > TAG_LEN && counter == |writer.parts| < TWO64
    requires OpenLeft(fc, all, writer.parts, frame + reader.Rest(), w)
    modifies reader, writer`buffer, writer`parts, writer.fs`files, writer.fs`history
    ensures reader.Valid() && writer.Valid() && old(writer.fs.history) <= writer.fs.history
    ensures (rc == Ok && next != None) || OpenOutcome(rc, all, writer.parts)
    ensures reader.reliable && writer.fs.reliable ==> rc != Io
    ensures rc == Ok ==> bumped == |writer.parts| < TWO64 && |reader.Rest()| <= |old(reader.Rest())|
    ensures rc == Ok && next != None ==>
              && InHand(reader, next.value, w) && |reader.Rest()| < |old(reader.Rest())|
              && OpenLeft(fc, all, writer.parts, next.value + reader.Rest(), w)
  {
    ghost var rest := reader.Rest();
    bumped := counter;
    OpenLeftStep(fc, all, writer.parts, frame, rest, w);
    if |frame| < TAG_LEN {
      return InvalidCiphertext, None, bumped;
    }
    var r := ReadBlock(reader, w);
    if r.ReadError? {
      return Io, None, bumped;
    }
    next := r.block;
    var last := |frame| < w || next == None;
    // A short frame means the end of the file was reached, and it stays reached: the
    // source's "data after final frame" branch cannot be taken.
    assert last <==> next == None;
    if !last {
      assert rest == next.value + reader.Rest();
    }
    rc := OpenFrame(writer, ch, fc, frame, counter, last);
    if rc == Ok {
      match NextCounter(counter) {
        case None => rc := Internal;
        case Some(n) => bumped := n;
      }
    }
  }

  /** The opening loop, entered with a first frame in hand. */
  method OpenFrames(reader: Reader, writer: Writer, ch: Channel, ghost fc: FrameCipher, w: pos,
                    first: bytes, ghost all: Opened)
    returns (rc: Status)
    requires ch.layer == Rust && Implements(ch, fc) && w > TAG_LEN
    requires reader.Valid() && writer.Valid() && writer.parts == [] && InHand(reader, first, w)
    requires OpenLeft(fc, all, [], first + reader.Rest(), w)
    modifies reader, writer`buffer, writer`parts, writer.fs`files, writer.fs`history
    ensures writer.Valid() && old(writer.fs.history) <= writer.fs.history
    ensures OpenOutcome(rc, all, writer.parts)
    ensures reader.reliable && writer.fs.reliable ==> rc != Io
  {
    var held := Some(first);
    var counter := 0;
    rc := Ok;
    while held != None
      invariant reader.Valid() && writer.Valid() && old(writer.fs.history) <= writer.fs.history
      invariant rc == Ok && counter == |writer.parts| < TWO64
      invariant if held == None then all == Opened(writer.parts, Accepted)
                else InHand(reader, held.value, w)
                     && OpenLeft(fc, all, writer.parts, held.value + reader.Rest(), w)
      decreases |reader.Rest()|, held != None
    {
      rc, held, counter := OpenHeld(reader, writer, ch, fc, w, held.value, counter, all);
      if rc != Ok {
        return;
      }
    }
  }

  /** The body of `pqforge_stream_open_file` once both files are open. */
  method OpenLoop(reader: Reader, writer: Writer, ch: Channel, ghost fc: FrameCipher, c: pos)
    returns (rc: Status)
    requires ch.layer == Rust && Implements(ch, fc)
    requires reader.Valid() && reader.pos == 0 && writer.Valid() && writer.parts == [] && writer.buffer == []
    modifies reader, writer`buffer, writer`parts, writer.fs`files, writer.fs`history
    ensures writer.Valid() && old(writer.fs.history) <= writer.fs.history
    ensures OpenOutcome(rc, Open(fc, reader.contents, c), writer.parts)
    ensures reader.reliable && writer.fs.reliable ==> rc != Io
    ensures rc == Ok ==> writer.buffer == []
  {
    var w := c + TAG_LEN;
    assert reader.Rest() == reader.contents;
    var r := ReadBlock(reader, w);
    if r.ReadError? {
      return Io;
    }
    if r.block == None {
      return InvalidCiphertext;   // empty stream
    }
    assert reader.contents == r.block.value + reader.Rest();
    OpenLeftStart(fc, reader.contents, c);
    rc := OpenFrames(reader, writer, ch, fc, w, r.block.value, Open(fc, reader.contents, c));
    if rc == Ok {
      var flushed := writer.FlushBuffer(true);
      rc := if flushed then Ok else Io;
    }
  }
}
