/** The step facts behind the two engines' loops: what one round of a push loop or a pull
    loop does to "what was released" and "what is left". */
module Steps {
  import opened Bytes
  import opened Channels
  import opened Framing

  // ---- the push engine -----------------------------------------------------

  /** Having released `out`, a sealer that still has `todo` to cut up does, on every
      continuation of the input, exactly what it would do on the whole input. */
  ghost predicate SealResumes(fc: FrameCipher, received: bytes, out: seq<bytes>, todo: bytes, c: pos)
  {
    forall rest {:trigger received + rest} ::
      && SealTail(received + rest, c) == SealTail(todo + rest, c)
      && SealSoFar(fc, 0, received + rest, c) == out + SealSoFar(fc, |out|, todo + rest, c)
  }

  lemma SealResumesReceive(fc: FrameCipher, received: bytes, out: seq<bytes>, todo: bytes, data: bytes, c: pos)
    requires SealResumes(fc, received, out, todo, c)
    ensures SealResumes(fc, received + data, out, todo + data, c)
  {
    forall rest
      ensures SealTail(received + data + rest, c) == SealTail(todo + data + rest, c)
      ensures SealSoFar(fc, 0, received + data + rest, c) == out + SealSoFar(fc, |out|, todo + data + rest, c)
    {
      assert received + data + rest == received + (data + rest);
      assert todo + data + rest == todo + (data + rest);
    }
  }

  lemma Reassociate(out: seq<bytes>, f: bytes, s: seq<bytes>)
    ensures out + ([f] + s) == (out + [f]) + s
  {
  }

  lemma SealResumesStepAt(fc: FrameCipher, received: bytes, out: seq<bytes>, held: bytes, more: bytes, c: pos,
                          rest: bytes)
    requires |held| == c && |more| >= c && SealResumes(fc, received, out, held + more, c)
    ensures SealTail(received + rest, c) == SealTail(more + rest, c)
    ensures SealSoFar(fc, 0, received + rest, c)
         == (out + [fc.seal(|out|, false, held)]) + SealSoFar(fc, |out| + 1, more + rest, c)
  {
    assert received + rest == received + rest;
    assert held + more + rest == held + (more + rest);
    SealStep(fc, |out|, held, more + rest, c);
    Reassociate(out, fc.seal(|out|, false, held), SealSoFar(fc, |out| + 1, more + rest, c));
  }

  /** A held chunk followed by another full chunk is released. */
  lemma SealResumesStep(fc: FrameCipher, received: bytes, out: seq<bytes>, held: bytes, more: bytes, c: pos)
    requires |held| == c && |more| >= c && SealResumes(fc, received, out, held + more, c)
    ensures SealResumes(fc, received, out + [fc.seal(|out|, false, held)], more, c)
  {
    forall rest
      ensures SealTail(received + rest, c) == SealTail(more + rest, c)
      ensures SealSoFar(fc, 0, received + rest, c)
           == (out + [fc.seal(|out|, false, held)]) + SealSoFar(fc, |out| + 1, more + rest, c)
    {
      SealResumesStepAt(fc, received, out, held, more, c, rest);
    }
  }

  /** With less than two chunks left nothing more can be released. */
  lemma SealSettled(fc: FrameCipher, received: bytes, out: seq<bytes>, todo: bytes, c: pos)
    requires |todo| < 2 * c && SealResumes(fc, received, out, todo, c)
    ensures out == SealSoFar(fc, 0, received, c) && todo == SealTail(received, c)
  {
    assert received + [] == received && todo + [] == todo;
  }

  /** Ending the input: the held-back chunk and the leftover become the last frames. */
  lemma SealDone(fc: FrameCipher, received: bytes, out: seq<bytes>, held: bytes, left: bytes, c: pos)
    requires |left| < c && (held == [] || |held| == c)
    requires SealResumes(fc, received, out, held + left, c)
    ensures Sealed(fc, received, c)
         == if held != [] && left != [] then
              out + [fc.seal(|out|, false, held)] + [fc.seal(|out| + 1, true, left)]
            else out + [fc.seal(|out|, true, held + left)]
  {
    SealSettled(fc, received, out, held + left, c);
    SealFinish(fc, 0, received, c);
    if held != [] && left != [] {
      SealLastTwo(fc, |out|, held, left, c);
    }
  }

  lemma SealLastTwo(fc: FrameCipher, i: nat, held: bytes, last: bytes, c: pos)
    requires |held| == c && 0 < |last| <= c
    ensures SealFrom(fc, i, held + last, c) == [fc.seal(i, false, held), fc.seal(i + 1, true, last)]
  {
    assert (held + last)[..c] == held && (held + last)[c..] == last;
  }

  /** Having released `out`, an opener that still has `todo` to cut up does, on every
      continuation of the input, exactly what it would do on the whole input. */
  ghost predicate OpenResumes(fc: FrameCipher, received: bytes, out: seq<bytes>, todo: bytes, w: pos)
  {
    forall rest {:trigger received + rest} ::
      && OpenTail(received + rest, w) == OpenTail(todo + rest, w)
      && OpenSoFar(fc, 0, received + rest, w) == Prepend(out, OpenSoFar(fc, |out|, todo + rest, w))
  }

  lemma OpenResumesReceive(fc: FrameCipher, received: bytes, out: seq<bytes>, todo: bytes, data: bytes, w: pos)
    requires OpenResumes(fc, received, out, todo, w)
    ensures OpenResumes(fc, received + data, out, todo + data, w)
  {
    forall rest
      ensures OpenTail(received + data + rest, w) == OpenTail(todo + data + rest, w)
      ensures OpenSoFar(fc, 0, received + data + rest, w)
           == Prepend(out, OpenSoFar(fc, |out|, todo + data + rest, w))
    {
      assert received + data + rest == received + (data + rest);
      assert todo + data + rest == todo + (data + rest);
    }
  }

  /** A frame with something after it is opened: its plaintext is released, or the run fails. */
  lemma OpenResumesStep(fc: FrameCipher, received: bytes, out: seq<bytes>, frame: bytes, more: bytes, w: pos)
    requires |frame| == w && more != [] && OpenResumes(fc, received, out, frame + more, w)
    ensures match fc.open(|out|, false, frame)
            case None => OpenSoFar(fc, 0, received, w) == Opened(out, Unauthentic)
            case Some(p) => OpenResumes(fc, received, out + [p], more, w)
  {
    match fc.open(|out|, false, frame) {
      case None =>
        assert received + [] == received && frame + more + [] == frame + more;
        OpenStep(fc, |out|, frame, more, w);
      case Some(p) =>
        forall rest
          ensures OpenTail(received + rest, w) == OpenTail(more + rest, w)
          ensures OpenSoFar(fc, 0, received + rest, w)
               == Prepend(out + [p], OpenSoFar(fc, |out| + 1, more + rest, w))
        {
          assert frame + more + rest == frame + (more + rest);
          OpenStep(fc, |out|, frame, more + rest, w);
          PrependTwice(out, [p], OpenSoFar(fc, |out| + 1, more + rest, w));
        }
    }
  }

  /** With at most one frame left nothing more can be released. */
  lemma OpenSettled(fc: FrameCipher, received: bytes, out: seq<bytes>, todo: bytes, w: pos)
    requires |todo| <= w && OpenResumes(fc, received, out, todo, w)
    ensures OpenSoFar(fc, 0, received, w) == Opened(out, Running) && todo == OpenTail(received, w)
  {
    assert received + [] == received && todo + [] == todo;
  }

  // ---- the pull engine -----------------------------------------------------

  /** What reading one block of up to `size` bytes takes off the rest of the input. */
  function Block(rest: bytes, size: pos): (b: Option<bytes>)
    ensures b == None <==> rest == []
  {
    if rest == [] then None else Some(rest[..Min(size, |rest|)])
  }

  function AfterBlock(rest: bytes, size: pos): bytes {
    rest[Min(size, |rest|)..]
  }

  /** With `out` written, sealing what is left completes the stream. */
  ghost predicate SealLeft(fc: FrameCipher, all: seq<bytes>, out: seq<bytes>, todo: bytes, c: pos)
  {
    all == out + SealFrom(fc, |out|, todo, c)
  }

  lemma SealLeftStart(fc: FrameCipher, p: bytes, c: pos)
    ensures SealLeft(fc, Sealed(fc, p, c), [], p, c)
  {
  }

  /** The block in hand is the last one exactly when nothing follows it. */
  lemma SealLeftStep(fc: FrameCipher, all: seq<bytes>, out: seq<bytes>, held: bytes, rest: bytes, c: pos)
    requires 0 < |held| <= c && (|held| == c || rest == [])
    requires SealLeft(fc, all, out, held + rest, c)
    ensures var out' := out + [fc.seal(|out|, rest == [], held)];
            out' <= all && if rest == [] then all == out' else SealLeft(fc, all, out', rest, c)
  {
    if rest == [] {
      assert held + rest == held;
    } else {
      assert (held + rest)[..c] == held && (held + rest)[c..] == rest;
      Reassociate(out, fc.seal(|out|, false, held), SealFrom(fc, |out| + 1, rest, c));
    }
  }

  ghost predicate OpenLeft(fc: FrameCipher, all: Opened, out: seq<bytes>, todo: bytes, w: pos)
  {
    all == Prepend(out, OpenFrom(fc, |out|, todo, w))
  }

  lemma OpenLeftStart(fc: FrameCipher, bs: bytes, c: pos)
    ensures OpenLeft(fc, Open(fc, bs, c), [], bs, c + TAG_LEN)
  {
  }

  lemma OpenLeftStep(fc: FrameCipher, all: Opened, out: seq<bytes>, held: bytes, rest: bytes, w: pos)
    requires 0 < |held| <= w && (|held| == w || rest == []) && w > TAG_LEN
    requires OpenLeft(fc, all, out, held + rest, w)
    ensures out <= all.out
    ensures if |held| < TAG_LEN then all == Opened(out, Malformed)
            else match fc.open(|out|, rest == [], held)
                 case None => all == Opened(out, Unauthentic)
                 case Some(p) => out + [p] <= all.out
                                 && if rest == [] then all == Opened(out + [p], Accepted)
                                    else OpenLeft(fc, all, out + [p], rest, w)
  {
    if rest == [] {
      assert held + rest == held;
    } else {
      OpenStep(fc, |out|, held, rest, w);
      if fc.open(|out|, false, held).Some? {
        PrependTwice(out, [fc.open(|out|, false, held).value], OpenFrom(fc, |out| + 1, rest, w));
      }
    }
  }
}
