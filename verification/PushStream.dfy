/** The push-based engine of lib/src/api/stream.dart. Input arrives as events of arbitrary
    size; each run object holds what the generator keeps between events. */
module PushStream {
  import opened Bytes
  import opened Channels
  import opened Chunking
  import opened Framing
  import opened Steps

  /** `_concat`: when nothing is carried over, the event buffer itself is used, uncopied. */
  method Concat(a: array<byte>, b: array<byte>) returns (out: array<byte>)
    ensures out[..] == a[..] + b[..]
    ensures if a.Length == 0 then out == b else fresh(out)
  {
    if a.Length == 0 {
      return b;
    }
    out := new byte[a.Length + b.Length];
    forall i | 0 <= i < a.Length {
      out[i] := a[i];
    }
    forall i | a.Length <= i < out.Length {
      out[i] := b[i - a.Length];
    }
  }

  /** `Uint8List.fromList` of a sub-view. */
  method CopyOf(a: array<byte>, from: nat, to: nat) returns (out: array<byte>)
    requires from <= to <= a.Length
    ensures fresh(out) && out[..] == a[from..to]
  {
    out := new byte[to - from](i requires 0 <= i < to - from reads a => a[from + i]);
  }

  /** `_nonce(counter, last, 12)` for the i-th frame of a run. */
  method FrameNonce(ch: Channel, ghost fc: FrameCipher, counter: int, ghost i: nat, last: bool, ghost text: bytes)
    returns (nonce: bytes)
    requires ch.layer == Dart && Implements(ch, fc) && counter == Int64(i)
    ensures nonce == fc.nonce(i, last)
    ensures ch.aead.seal(ch.key, nonce, ch.ad, text) == fc.seal(i, last, text)
    ensures ch.aead.open(ch.key, nonce, ch.ad, text) == fc.open(i, last, text)
  {
    var n := DartNonceBytes(counter, last, NONCE_LEN);
    nonce := n[..];
    FrameCalls(ch, fc, i, last, nonce, text);
  }

  ghost function Content(a: array?<byte>): bytes
    reads a
  {
    if a == null then [] else a[..]
  }

  // ---- sealing -------------------------------------------------------------

  lemma ReleasedCount(fc: FrameCipher, r: bytes, c: pos)
    ensures |SealSoFar(fc, 0, r, c)| == Positive(|r| / c - 1)
  {
    SealProgress(fc, 0, r, c);
    if |r| < c {
      DivSmall(|r|, c);
    } else {
      DivMonotone(c, |r|, c);
      DivUnique(c, 1, 0, c);
    }
  }

  class SealRun {
    const ch: Channel
    ghost const fc: FrameCipher   // what the frames of ch are
    const c: pos
    var counter: int            // Dart int: two's-complement 64 bit
    var pending: array?<byte>   // the most recent full chunk, held back
    var carry: array<byte>      // leftover shorter than a chunk
    var emitted: seq<bytes>     // the frames yielded so far
    ghost var nonces: seq<bytes>
    ghost var held: bytes       // the content of pending
    ghost var received: bytes

    /** fc is the frame cipher of this Dart channel. Both are constants. */
    ghost predicate Wired() {
      ch.layer == Dart && Implements(ch, fc)
    }

    /** `rest` is the input received but not yet cut into chunks. */
    ghost predicate Draining(rest: bytes)
      reads `counter, `emitted, `nonces, `held, `received
    {
      && counter == Int64(|emitted|)
      && (if held == [] then emitted == [] else |held| == c)
      && |nonces| == |emitted|
      && (forall k :: 0 <= k < |nonces| ==> nonces[k] == fc.nonce(k, false))
      && SealResumes(fc, received, emitted, held + rest, c)
    }

    ghost predicate Holding()
      reads `pending, `held, pending
    {
      if pending == null then held == [] else held != [] && held == pending[..]
    }

    ghost predicate Valid()
      reads this, pending, carry
    {
      Holding() && Draining(carry[..]) && carry.Length < c
    }

    constructor (ch: Channel, c: pos)
      requires ch.layer == Dart
      ensures Wired() && Valid() && fresh(carry) && pending == null
      ensures this.ch == ch && this.c == c && fc == ch.Cipher() && received == [] && emitted == []
    {
      this.ch, this.c, this.fc := ch, c, ch.Cipher();
      counter, pending, emitted := 0, null, [];
      carry := new byte[0];
      nonces, held, received := [], [], [];
    }

    /** `yield _seal(...)` with a post-incremented counter. */
    method Emit(chunk: array<byte>, last: bool)
      requires Wired() && counter == Int64(|emitted|)
      modifies this`counter, this`emitted, this`nonces
      ensures counter == Int64(|emitted|)
      ensures emitted == old(emitted) + [fc.seal(|old(emitted)|, last, chunk[..])]
      ensures nonces == old(nonces) + [fc.nonce(|old(emitted)|, last)]
    {
      var nonce := FrameNonce(ch, fc, counter, |emitted|, last, chunk[..]);
      var frame := ch.aead.seal(ch.key, nonce, ch.ad, chunk[..]);
      Int64Next(|emitted|);
      counter := Int64(counter + 1);
      emitted := emitted + [frame];
      nonces := nonces + [nonce];
    }

    /** The inner loop body: a full chunk is available, so the held one is not the last. */
    method HoldChunk(combined: array<byte>, offset: nat) returns (next: nat)
      requires Wired() && offset + c <= combined.Length && Holding() && Draining(combined[offset..])
      modifies this`counter, this`pending, this`emitted, this`nonces, this`held
      ensures next == offset + c && Holding() && Draining(combined[next..])
      ensures pending != null && fresh(pending)
    {
      next := offset + c;
      ghost var rest, more := combined[offset..], combined[next..];
      if pending != null {
        SealResumesStep(fc, received, emitted, held, rest, c);
        Emit(pending, false);
      }
      assert SealResumes(fc, received, emitted, rest, c) by {
        if pending == null {
          assert held + rest == rest;
        }
      }
      var chunk := CopyOf(combined, offset, next);
      assert rest == chunk[..] + more;
      pending, held := chunk, chunk[..];
    }

    /** The inner loop: cut off full chunks until less than one is left. */
    method Drain(combined: array<byte>) returns (offset: nat)
      requires Wired() && Holding() && Draining(combined[..])
      modifies this`counter, this`pending, this`emitted, this`nonces, this`held
      ensures offset <= combined.Length < offset + c
      ensures Holding() && Draining(combined[offset..])
      ensures pending == old(pending) || fresh(pending)
    {
      offset := 0;
      assert combined[0..] == combined[..];
      while combined.Length - offset >= c
        invariant offset <= combined.Length
        invariant Holding() && Draining(combined[offset..])
        invariant pending == old(pending) || fresh(pending)
      {
        offset := HoldChunk(combined, offset);
      }
    }

    /** One pass of the `await for` body. What has been released, and what is retained,
        depends only on the bytes received, never on how they were split into events; and
        nothing retained aliases the event buffer. */
    method OnData(data: array<byte>)
      requires Wired() && Valid()
      modifies this
      ensures Valid()
      ensures received == old(received) + data[..]
      ensures fresh(carry) && (pending == old(pending) || fresh(pending))
      ensures emitted == SealSoFar(fc, 0, received, c)
      ensures |emitted| == Positive(|received| / c - 1)
      ensures Content(pending) + carry[..] == SealTail(received, c)
    {
      Absorb(data);
      Settled();
    }

    method Absorb(data: array<byte>)
      requires Wired() && Valid()
      modifies this
      ensures Valid() && received == old(received) + data[..]
      ensures fresh(carry) && (pending == old(pending) || fresh(pending))
    {
      var combined := Concat(carry, data);
      Receive(data[..], combined[..]);
      var offset := Drain(combined);
      Keep(combined, offset);
    }

    /** A fresh copy of what is left over is carried to the next event. */
    method Keep(combined: array<byte>, offset: nat)
      requires offset <= combined.Length < offset + c
      requires Holding() && Draining(combined[offset..])
      modifies this`carry
      ensures Valid() && fresh(carry)
    {
      var leftover := CopyOf(combined, offset, combined.Length);
      assert leftover[..] == combined[offset..];
      carry := leftover;
    }

    /** Accounts for new input. */
    ghost method Receive(data: bytes, combined: bytes)
      requires Valid() && combined == carry[..] + data
      modifies this`received
      ensures received == old(received) + data && Draining(combined)
    {
      SealResumesReceive(fc, received, emitted, held + carry[..], data, c);
      assert (held + carry[..]) + data == held + combined;
      received := received + data;
    }

    /** Between events nothing more can be released, and what is held is the exact tail. */
    lemma Settled()
      requires Valid()
      ensures emitted == SealSoFar(fc, 0, received, c)
      ensures |emitted| == Positive(|received| / c - 1)
      ensures Content(pending) + carry[..] == SealTail(received, c)
    {
      SealSettled(fc, received, emitted, held + carry[..], c);
      ReleasedCount(fc, received, c);
    }

    /** What follows the loop once the source is done: the held-back frames go out, and
        only the very last carries the flag. */
    method OnDone()
      requires Wired() && Valid()
      modifies this`counter, this`emitted, this`nonces
      ensures emitted == Sealed(fc, received, c)
      ensures |nonces| == |emitted|
      ensures forall k :: 0 <= k < |emitted| ==> nonces[k] == fc.nonce(k, k == |emitted| - 1)
    {
      SealDone(fc, received, emitted, held, carry[..], c);
      if carry.Length != 0 {
        if pending != null {
          Emit(pending, false);
        } else {
          assert held + carry[..] == carry[..];
        }
        Emit(carry, true);
      } else if pending != null {
        assert held + carry[..] == pending[..];
        Emit(pending, true);
      } else {
        var empty := new byte[0];
        assert held + carry[..] == empty[..];
        Emit(empty, true);
      }
    }
  }

  // ---- opening -------------------------------------------------------------

  class OpenRun {
    const ch: Channel
    ghost const fc: FrameCipher   // what the frames of ch are
    const c: pos
    var counter: int
    var carry: array<byte>
    var sawAnyByte: bool
    var emitted: seq<bytes>     // the plaintext frames yielded so far
    var verdict: Verdict        // Running until the generator returns or throws
    ghost var received: bytes

    /** fc is the frame cipher of this Dart channel. Both are constants. */
    ghost predicate Wired() {
      ch.layer == Dart && Implements(ch, fc)
    }

    /** `rest` is the input received but not yet cut into frames. */
    ghost predicate Opening(rest: bytes)
      reads `counter, `emitted, `verdict, `received
    {
      && counter == Int64(|emitted|) && verdict == Running
      && OpenResumes(fc, received, emitted, rest, c + TAG_LEN)
    }

    ghost predicate Valid()
      reads this, carry
    {
      Opening(carry[..]) && carry.Length <= c + TAG_LEN && (sawAnyByte <==> received != [])
    }

    constructor (ch: Channel, c: pos)
      requires ch.layer == Dart
      ensures Wired() && Valid() && fresh(carry)
      ensures this.ch == ch && this.c == c && fc == ch.Cipher() && received == [] && emitted == []
    {
      this.ch, this.c, this.fc := ch, c, ch.Cipher();
      counter, sawAnyByte, emitted, verdict := 0, false, [], Running;
      carry := new byte[0];
      received := [];
    }

    /** `yield _open(...)`: a frame that fails throws, and contributes no bytes. */
    method Release(frame: bytes, last: bool) returns (ok: bool)
      requires Wired() && counter == Int64(|emitted|)
      modifies this`counter, this`emitted, this`verdict
      ensures ok <==> fc.open(|old(emitted)|, last, frame).Some?
      ensures if ok then
                && emitted == old(emitted) + [fc.open(|old(emitted)|, last, frame).value]
                && counter == Int64(|emitted|) && verdict == old(verdict)
              else emitted == old(emitted) && verdict == Unauthentic
    {
      var nonce := FrameNonce(ch, fc, counter, |emitted|, last, frame);
      Int64Next(|emitted|);
      counter := Int64(counter + 1);
      var p := ch.aead.open(ch.key, nonce, ch.ad, frame);
      if p == None {
        verdict := Unauthentic;
        return false;
      }
      emitted := emitted + [p.value];
      return true;
    }

    /** The inner loop body: something follows this frame, so it is not the last. */
    method OpenChunk(combined: array<byte>, offset: nat) returns (next: nat, alive: bool)
      requires Wired() && offset + c + TAG_LEN < combined.Length && Opening(combined[offset..])
      modifies this`counter, this`emitted, this`verdict
      ensures next == offset + c + TAG_LEN
      ensures if alive then Opening(combined[next..])
              else OpenSoFar(fc, 0, received, c + TAG_LEN) == Opened(emitted, verdict) && verdict == Unauthentic
    {
      next := offset + c + TAG_LEN;
      var frame := combined[offset..next];
      assert combined[offset..] == frame + combined[next..];
      OpenResumesStep(fc, received, emitted, frame, combined[next..], c + TAG_LEN);
      alive := Release(frame, false);
    }

    /** The inner loop: open frames while strictly more than one remains. */
    method Drain(combined: array<byte>) returns (offset: nat, alive: bool)
      requires Wired() && Opening(combined[..])
      modifies this`counter, this`emitted, this`verdict
      ensures if alive then offset <= combined.Length <= offset + c + TAG_LEN && Opening(combined[offset..])
              else OpenSoFar(fc, 0, received, c + TAG_LEN) == Opened(emitted, verdict) && verdict == Unauthentic
    {
      offset, alive := 0, true;
      assert combined[0..] == combined[..];
      while combined.Length - offset > c + TAG_LEN
        invariant offset <= combined.Length && alive
        invariant Opening(combined[offset..])
      {
        offset, alive := OpenChunk(combined, offset);
        if !alive {
          return;
        }
      }
    }

    /** One pass of the `await for` body; `alive` is false when a frame threw. Either way
        what was released is a function of the bytes received alone. */
    method OnData(data: array<byte>) returns (alive: bool)
      requires Wired() && Valid()
      modifies this
      ensures alive ==> Valid() && fresh(carry)
      ensures received == old(received) + data[..]
      ensures alive <==> verdict == Running
      ensures OpenSoFar(fc, 0, received, c + TAG_LEN) == Opened(emitted, verdict)
      ensures alive && received != [] ==>
                |emitted| == (|received| - 1) / (c + TAG_LEN) && 1 <= carry.Length <= c + TAG_LEN
    {
      alive := Absorb(data);
      if alive {
        Settled();
      }
    }

    method Absorb(data: array<byte>) returns (alive: bool)
      requires Wired() && Valid()
      modifies this
      ensures received == old(received) + data[..]
      ensures if alive then Valid() && fresh(carry)
              else OpenSoFar(fc, 0, received, c + TAG_LEN) == Opened(emitted, verdict) && verdict == Unauthentic
    {
      if data.Length != 0 {
        sawAnyByte := true;
      }
      var combined := Concat(carry, data);
      Receive(data[..], combined[..]);
      var offset;
      offset, alive := Drain(combined);
      if alive {
        Keep(combined, offset);
      }
    }

    /** A fresh copy of the possible final frame is carried to the next event. */
    method Keep(combined: array<byte>, offset: nat)
      requires offset <= combined.Length <= offset + c + TAG_LEN
      requires Opening(combined[offset..]) && (sawAnyByte <==> received != [])
      modifies this`carry
      ensures Valid() && fresh(carry)
    {
      var leftover := CopyOf(combined, offset, combined.Length);
      assert leftover[..] == combined[offset..];
      carry := leftover;
    }

    ghost method Receive(data: bytes, combined: bytes)
      requires Opening(carry[..]) && carry.Length <= c + TAG_LEN && combined == carry[..] + data
      modifies this`received
      ensures received == old(received) + data && Opening(combined)
    {
      OpenResumesReceive(fc, received, emitted, carry[..], data, c + TAG_LEN);
      received := received + data;
    }

    /** Between events nothing more can be released. */
    lemma Settled()
      requires Valid()
      ensures OpenSoFar(fc, 0, received, c + TAG_LEN) == Opened(emitted, Running)
      ensures carry[..] == OpenTail(received, c + TAG_LEN)
      ensures received != [] ==>
                |emitted| == (|received| - 1) / (c + TAG_LEN) && 1 <= carry.Length <= c + TAG_LEN
    {
      OpenSettled(fc, received, emitted, carry[..], c + TAG_LEN);
      if received != [] {
        OpenProgress(fc, 0, received, c + TAG_LEN);
      }
    }

    /** What follows the loop once the source is done. */
    method OnDone()
      requires Wired() && Valid()
      modifies this`counter, this`emitted, this`verdict
      ensures Open(fc, received, c) == Opened(emitted, verdict)
    {
      Settled();
      OpenFinish(fc, 0, received, c + TAG_LEN);
      if !sawAnyByte {
        verdict := Malformed;   // empty ciphertext stream
        return;
      }
      if carry.Length < TAG_LEN {
        verdict := Malformed;   // truncated final frame
        return;
      }
      var ok := Release(carry[..], true);
      if ok {
        verdict := Accepted;
      }
    }
  }

  // ---- whole runs ----------------------------------------------------------

  datatype PushResult = ArgumentError | Finished(frames: seq<bytes>, verdict: Verdict)

  /** An event reaches a run in a buffer its producer owns, and may do as it likes with
      once the event has been handled. */
  method DeliverToSeal(run: SealRun, event: bytes)
    requires run.Wired() && run.Valid()
    modifies run
    ensures run.Valid() && run.received == old(run.received) + event
    ensures fresh(run.carry) && (run.pending == old(run.pending) || fresh(run.pending))
  {
    var data := new byte[|event|](j requires 0 <= j < |event| => event[j]);
    assert data[..] == event;
    run.OnData(data);
    modify data;
  }

  method DeliverToOpen(run: OpenRun, event: bytes) returns (alive: bool)
    requires run.Wired() && run.Valid()
    modifies run
    ensures run.received == old(run.received) + event
    ensures alive ==> run.Valid() && fresh(run.carry)
    ensures alive <==> run.verdict == Running
    ensures OpenSoFar(run.fc, 0, run.received, run.c + TAG_LEN) == Opened(run.emitted, run.verdict)
  {
    var data := new byte[|event|](j requires 0 <= j < |event| => event[j]);
    assert data[..] == event;
    alive := run.OnData(data);
    modify data;
  }

  /** The `await for` of `seal`: every event of the source, in order. */
  method FeedSeal(run: SealRun, source: seq<bytes>)
    requires run.Wired() && run.Valid() && run.received == []
    modifies run
    ensures run.Valid() && run.received == Flat(source)
  {
    for i := 0 to |source|
      invariant run.Valid() && run.received == Flat(source[..i])
    {
      DeliverToSeal(run, source[i]);
      FlatTake(source, i);
    }
    assert source[..|source|] == source;
  }

  lemma RunNonceContents(ch: Channel, n: nat, k: nat)
    requires k < n && k < 0x8000_0000_0000_0000
    ensures var nonce := RunNonce(ch, n, k);
            && |nonce| == 12 && nonce[11] == (if k == n - 1 then 1 else 0) && FromBigEndian(nonce[..11]) == k
  {
    NonceContents(ch, k, k == n - 1);
  }

  /** `PqForgeStream.seal` over a complete source; frame k is sealed under nonce k. */
  method Seal(aead: Aead, key: bytes, aad: Option<bytes>, chunkSize: int, source: seq<bytes>)
    returns (r: PushResult, ghost nonces: seq<bytes>)
    ensures r.Finished? ==> |nonces| == |r.frames|
    ensures var ch := Channel(Dart, aead, key, if aad.Some? then aad.value else []);
            && (forall k :: 0 <= k < |nonces| ==> nonces[k] == RunNonce(ch, |nonces|, k))
            && r == if chunkSize <= 0 then ArgumentError
                    else Finished(Sealed(ch.Cipher(), Flat(source), chunkSize), Accepted)
    ensures forall k :: 0 <= k < |nonces| && k < 0x8000_0000_0000_0000 ==>
              && |nonces[k]| == 12 && nonces[k][11] == (if k == |nonces| - 1 then 1 else 0)
              && FromBigEndian(nonces[k][..11]) == k
  {
    if chunkSize <= 0 {
      return ArgumentError, [];
    }
    var run := new SealRun(Channel(Dart, aead, key, AdOf(aad)), chunkSize);
    FeedSeal(run, source);
    run.OnDone();
    nonces := run.nonces;
    forall k | 0 <= k < |nonces| && k < 0x8000_0000_0000_0000
      ensures |nonces[k]| == 12 && nonces[k][11] == (if k == |nonces| - 1 then 1 else 0)
      ensures FromBigEndian(nonces[k][..11]) == k
    {
      RunNonceContents(run.ch, |nonces|, k);
    }
    return Finished(run.emitted, Accepted), nonces;
  }

  /** A frame that fails decides the run: the events never looked at cannot change it. */
  lemma RejectedEarly(fc: FrameCipher, source: seq<bytes>, i: nat, out: seq<bytes>, verdict: Verdict, c: pos)
    requires i <= |source| && verdict != Running
    requires OpenSoFar(fc, 0, Flat(source[..i]), c + TAG_LEN) == Opened(out, verdict)
    ensures Open(fc, Flat(source), c) == Opened(out, verdict)
  {
    FlatSplit(source, i);
    OpenSoFarIsSound(fc, Flat(source[..i]), Flat(source[i..]), c);
  }

  /** The `await for` of `open`: every event of the source, in order, until one throws. */
  method FeedOpen(run: OpenRun, source: seq<bytes>) returns (alive: bool)
    requires run.Wired() && run.Valid() && run.received == []
    modifies run
    ensures if alive then run.Valid() && run.received == Flat(source)
            else Open(run.fc, Flat(source), run.c) == Opened(run.emitted, run.verdict)
  {
    for i := 0 to |source|
      invariant run.Valid() && run.received == Flat(source[..i])
    {
      alive := DeliverToOpen(run, source[i]);
      FlatTake(source, i);
      if !alive {
        RejectedEarly(run.fc, source, i + 1, run.emitted, run.verdict, run.c);
        return;
      }
    }
    assert source[..|source|] == source;
    return true;
  }

  /** `PqForgeStream.open` over a complete source; a frame that throws ends the run. */
  method OpenStream(aead: Aead, key: bytes, aad: Option<bytes>, chunkSize: int, source: seq<bytes>)
    returns (r: PushResult)
    ensures r == if chunkSize <= 0 then ArgumentError
                 else var ad := if aad.Some? then aad.value else [];
                      var o := Open(Channel(Dart, aead, key, ad).Cipher(), Flat(source), chunkSize);
                      Finished(o.out, o.verdict)
  {
    if chunkSize <= 0 {
      return ArgumentError;
    }
    var run := new OpenRun(Channel(Dart, aead, key, AdOf(aad)), chunkSize);
    var alive := FeedOpen(run, source);
    if alive {
      run.OnDone();
    }
    return Finished(run.emitted, run.verdict);
  }
}
