/** The AEAD as the framing layers see it, and the per-frame nonce of both layers. */
module Channels {
  import opened Bytes

  const TAG_LEN: nat := 16
  const NONCE_LEN: nat := 12

  /** One AEAD suite through the interface of section 2 of RFC 5116: arguments are key,
      nonce, associated data and text. `open` is an arbitrary partial function; what is
      known about it is stated as a hypothesis where it is needed. */
  datatype Aead = Aead(
    seal: (bytes, bytes, bytes, bytes) -> bytes,
    open: (bytes, bytes, bytes, bytes) -> Option<bytes>)

  /** Sealing appends exactly one tag. */
  ghost predicate Sized(aead: Aead) {
    forall key, nonce, ad, p :: |aead.seal(key, nonce, ad, p)| == |p| + TAG_LEN
  }

  /** What was sealed opens to the same text under the same key, nonce and associated data. */
  ghost predicate Correct(aead: Aead) {
    forall key, nonce, ad, p :: aead.open(key, nonce, ad, aead.seal(key, nonce, ad, p)) == Some(p)
  }

  /** Optional associated data: a null and an empty one are the same. */
  function AdOf(aad: Option<bytes>): bytes {
    if aad == None then [] else aad.value
  }

  /** The two options authenticate the same bytes. */
  predicate SameAad(a: Option<bytes>, b: Option<bytes>) {
    match (a, b)
    case (Some(x), Some(y)) => x == y
    case (Some(x), None) => x == []
    case (None, Some(y)) => y == []
    case (None, None) => true
  }

  lemma SameAadIff(a: Option<bytes>, b: Option<bytes>)
    ensures AdOf(a) == AdOf(b) <==> SameAad(a, b)
  {
  }

  /** The two implementations of the STREAM framing. */
  datatype Layer = Dart | Rust

  function FlagByte(last: bool): byte {
    if last then 1 else 0
  }

  /** Two's-complement 64-bit value of an integer: Dart's native `int`. */
  function Int64(i: int): int {
    (i + TWO63) % TWO64 - TWO63
  }

  lemma Int64Next(i: int)
    ensures Int64(Int64(i) + 1) == Int64(i + 1)
  {
  }

  /** What the digit loop of the Dart `_nonce` leaves in the buffer. The loop runs only
      while its counter is positive, so a counter that wrapped leaves zeros. */
  function DartNonce(counter: int, last: bool, nonceBytes: nat): (n: bytes)
    requires nonceBytes > 0
    ensures |n| == nonceBytes
  {
    BigEndian(Positive(counter), nonceBytes - 1) + [FlagByte(last)]
  }

  /** What the Rust `stream_nonce` builds: three zero bytes, the u64 counter, the flag. */
  function RustNonce(counter: nat, last: bool): (n: bytes)
    ensures |n| == NONCE_LEN
  {
    Zeros(3) + BigEndian(counter, 8) + [FlagByte(last)]
  }

  /** What the framing sees of a layer: how frame number i is numbered, sealed and opened
      when its last-flag is given. The framing itself never looks inside. */
  datatype FrameCipher = FrameCipher(
    nonce: (nat, bool) -> bytes,
    seal: (nat, bool, bytes) -> bytes,
    open: (nat, bool, bytes) -> Option<bytes>)

  /** One layer working with one suite, key and associated data. */
  datatype Channel = Channel(layer: Layer, aead: Aead, key: bytes, ad: bytes) {
    /** The nonce this layer uses for its i-th frame. */
    function Nonce(i: nat, last: bool): (n: bytes)
      ensures |n| == NONCE_LEN
    {
      match layer
      case Dart => DartNonce(Int64(i), last, NONCE_LEN)
      case Rust => RustNonce(i, last)
    }

    function SealAt(i: nat, last: bool, p: bytes): bytes {
      aead.seal(key, Nonce(i, last), ad, p)
    }

    function OpenAt(i: nat, last: bool, frame: bytes): Option<bytes> {
      aead.open(key, Nonce(i, last), ad, frame)
    }

    function Cipher(): FrameCipher {
      FrameCipher(
        (i, last) => Nonce(i, last),
        (i, last, p) => SealAt(i, last, p),
        (i, last, frame) => OpenAt(i, last, frame))
    }
  }

  /** fc is the frame cipher of ch. The triggers keep nonce encodings out of proofs that
      only move frames around. */
  ghost predicate Implements(ch: Channel, fc: FrameCipher) {
    && (forall i: nat, last {:trigger ch.Nonce(i, last)} :: fc.nonce(i, last) == ch.Nonce(i, last))
    && (forall i: nat, last, p {:trigger ch.SealAt(i, last, p)} :: fc.seal(i, last, p) == ch.SealAt(i, last, p))
    && (forall i: nat, last, f {:trigger ch.OpenAt(i, last, f)} :: fc.open(i, last, f) == ch.OpenAt(i, last, f))
  }

  /** The AEAD calls behind one frame. */
  lemma FrameCalls(ch: Channel, fc: FrameCipher, i: nat, last: bool, nonce: bytes, text: bytes)
    requires Implements(ch, fc) && nonce == ch.Nonce(i, last)
    ensures nonce == fc.nonce(i, last)
    ensures ch.aead.seal(ch.key, nonce, ch.ad, text) == fc.seal(i, last, text)
    ensures ch.aead.open(ch.key, nonce, ch.ad, text) == fc.open(i, last, text)
  {
    assert ch.SealAt(i, last, text) == ch.aead.seal(ch.key, nonce, ch.ad, text);
    assert ch.OpenAt(i, last, text) == ch.aead.open(ch.key, nonce, ch.ad, text);
  }

  // ---- the two encoders, as the source writes them -------------------------

  lemma DigitStep(c: nat, i: nat, tail: bytes)
    requires c > 0
    ensures BigEndian(Positive(c), i + 1) + tail == BigEndian(Positive(c / 256), i) + ([c % 256] + tail)
  {
    assert BigEndian(c, i + 1) == BigEndian(c / 256, i) + [c % 256];
  }

  lemma DartNonceContents(counter: int, last: bool, nonceBytes: nat)
    requires nonceBytes > 0
    ensures var n := DartNonce(counter, last, nonceBytes);
            && n[nonceBytes - 1] == (if last then 1 else 0)
            && FromBigEndian(n[..nonceBytes - 1]) == if counter > 0 then counter % Pow256(nonceBytes - 1) else 0
  {
    var k := nonceBytes - 1;
    assert DartNonce(counter, last, nonceBytes)[..k] == BigEndian(Positive(counter), k);
    if counter > 0 {
      BigEndianMod(counter, k);
    } else {
      BigEndianRoundTrip(0, k);
    }
  }

  method DartNonceBytes(counter: int, last: bool, nonceBytes: nat) returns (nonce: array<byte>)
    requires nonceBytes > 0
    ensures fresh(nonce)
    ensures nonce[..] == DartNonce(counter, last, nonceBytes)
    ensures nonce.Length == nonceBytes && nonce[nonceBytes - 1] == if last then 1 else 0
    ensures FromBigEndian(nonce[..nonceBytes - 1])
         == if counter > 0 then counter % Pow256(nonceBytes - 1) else 0
  {
    nonce := new byte[nonceBytes](_ => 0);
    ghost var digits := BigEndian(Positive(counter), nonceBytes - 1);
    var c := counter;
    var i := nonceBytes - 2;
    while i >= 0 && c > 0
      invariant -1 <= i <= nonceBytes - 2
      invariant nonce[..i + 1] == Zeros(i + 1)
      invariant digits == BigEndian(Positive(c), i + 1) + nonce[i + 1..nonceBytes - 1]
    {
      ghost var tail := nonce[i + 1..nonceBytes - 1];
      DigitStep(c, i, tail);
      nonce[i] := c % 256;
      assert nonce[i..nonceBytes - 1] == [c % 256] + tail;
      assert nonce[..i] == Zeros(i);
      c := c / 256;
      i := i - 1;
    }
    assert BigEndian(Positive(c), i + 1) == Zeros(i + 1) by {
      BigEndianZero(i + 1);
    }
    assert nonce[..nonceBytes - 1] == nonce[..i + 1] + nonce[i + 1..nonceBytes - 1];
    nonce[nonceBytes - 1] := FlagByte(last);
    assert nonce[..] == nonce[..nonceBytes - 1] + [FlagByte(last)];
    DartNonceContents(counter, last, nonceBytes);
  }

  lemma RustNonceContents(counter: nat, last: bool)
    ensures var n := RustNonce(counter, last);
            && n[..3] == [0, 0, 0] && n[11] == (if last then 1 else 0)
            && (counter < 0x1_0000_0000_0000_0000 ==> FromBigEndian(n[3..11]) == counter)
  {
    assert RustNonce(counter, last)[3..11] == BigEndian(counter, 8);
    Pow256Of4And8();
    if counter < TWO64 {
      BigEndianRoundTrip(counter, 8);
    }
  }

  method StreamNonce(counter: nat, last: bool) returns (nonce: array<byte>)
    ensures fresh(nonce)
    ensures nonce[..] == RustNonce(counter, last)
    ensures nonce.Length == 12 && nonce[..3] == [0, 0, 0] && nonce[11] == if last then 1 else 0
    ensures counter < 0x1_0000_0000_0000_0000 ==> FromBigEndian(nonce[3..11]) == counter
  {
    nonce := new byte[12](_ => 0);
    var digits := BigEndian(counter, 8);
    forall i | 3 <= i < 11 {
      nonce[i] := digits[i - 3];
    }
    nonce[11] := FlagByte(last);
    assert nonce[..] == RustNonce(counter, last);
    RustNonceContents(counter, last);
    assert nonce[3..11] == nonce[..][3..11] && nonce[..3] == nonce[..][..3];
  }

  // ---- what the nonces guarantee -------------------------------------------

  /** The digit loop is injective on (counter, flag) while the counter fits in front of
      the flag byte, for every nonce length. */
  lemma DartNonceInjective(c: nat, last: bool, c': nat, last': bool, nonceBytes: nat)
    requires nonceBytes > 0
    requires c < Pow256(nonceBytes - 1) && c' < Pow256(nonceBytes - 1)
    requires DartNonce(c, last, nonceBytes) == DartNonce(c', last', nonceBytes)
    ensures c == c' && last == last'
  {
    var k := nonceBytes - 1;
    var n, n' := DartNonce(c, last, nonceBytes), DartNonce(c', last', nonceBytes);
    assert n[k] == FlagByte(last) && n'[k] == FlagByte(last');
    assert n[..k] == BigEndian(c, k) && n'[..k] == BigEndian(c', k);
    BigEndianInjective(c, c', k);
  }

  lemma NoncesAgree(i: nat, last: bool)
    requires i < TWO63
    ensures DartNonce(Int64(i), last, NONCE_LEN) == RustNonce(i, last)
  {
    Pow256Of4And8();
    assert Int64(i) == i;
    if i == 0 {
      BigEndianZero(11);
      BigEndianZero(8);
      assert Zeros(11) == Zeros(3) + Zeros(8);
    } else {
      BigEndianPad(i, 8, 3);
    }
  }

  /** At twelve bytes the two encoders agree byte for byte on exactly the frame numbers the
      64-bit Dart counter can hold. */
  lemma NoncesAgreeIff(i: nat, last: bool)
    requires i < TWO64
    ensures DartNonce(Int64(i), last, NONCE_LEN) == RustNonce(i, last) <==> i < TWO63
  {
    if i < TWO63 {
      NoncesAgree(i, last);
    } else {
      assert Int64(i) <= 0;
      assert DartNonce(Int64(i), last, NONCE_LEN) == DartNonce(Int64(0), last, NONCE_LEN);
      NoncesAgree(0, last);
      if RustNonce(i, last) == RustNonce(0, last) {
        RustNonceInjective(i, last, 0, last);
      }
    }
  }

  /** The number the Dart counter gives frame i. */
  function Wrapped(i: nat): (j: nat)
    ensures j <= i && j < TWO63
    ensures i < TWO63 ==> j == i
  {
    Positive(Int64(i))
  }

  /** The number a layer gives frame i. */
  function Number(layer: Layer, i: nat): nat {
    match layer
    case Dart => Wrapped(i)
    case Rust => i
  }

  /** Whichever layer made it, a nonce is the Rust encoding of number and flag. */
  lemma NonceOfNumber(ch: Channel, i: nat, last: bool)
    ensures ch.Nonce(i, last) == RustNonce(Number(ch.layer, i), last)
  {
    if ch.layer == Dart {
      NoncesAgree(Wrapped(i), last);
    }
  }

  /** What is in a nonce: the flag in its last byte, 1 for the final frame, and before it
      the big-endian frame number; a Dart counter that has wrapped leaves zeros there. */
  lemma NonceContents(ch: Channel, i: nat, last: bool)
    requires i < 0x1_0000_0000_0000_0000
    ensures var n := ch.Nonce(i, last);
            && |n| == 12
            && n[11] == (if last then 1 else 0)
            && FromBigEndian(n[..11]) == if ch.layer == Dart && i >= 0x8000_0000_0000_0000 then 0 else i
  {
    var n, j := ch.Nonce(i, last), Number(ch.layer, i);
    NonceOfNumber(ch, i, last);
    Pow256Of4And8();
    BigEndianPad(j, 8, 3);
    assert n[..11] == BigEndian(j, 11);
    assert Pow256(11) >= Pow256(10) >= Pow256(9) >= Pow256(8);
    BigEndianRoundTrip(j, 11);
  }

  /** And nothing else has those contents. */
  lemma NonceFromContents(ch: Channel, i: nat, last: bool, nonce: bytes)
    requires i < 0x8000_0000_0000_0000 || (ch.layer == Rust && i < 0x1_0000_0000_0000_0000)
    requires |nonce| == 12 && nonce[11] == (if last then 1 else 0) && FromBigEndian(nonce[..11]) == i
    ensures nonce == ch.Nonce(i, last)
  {
    var n := ch.Nonce(i, last);
    NonceContents(ch, i, last);
    BigEndianOnto(nonce[..11]);
    BigEndianOnto(n[..11]);
    assert nonce == nonce[..11] + [nonce[11]] && n == n[..11] + [n[11]];
  }

  lemma RustNonceInjective(i: nat, last: bool, j: nat, last': bool)
    requires i < TWO64 && j < TWO64 && RustNonce(i, last) == RustNonce(j, last')
    ensures i == j && last == last'
  {
    var n, n' := RustNonce(i, last), RustNonce(j, last');
    assert n[11] == FlagByte(last) && n'[11] == FlagByte(last');
    assert n[3..11] == BigEndian(i, 8) && n'[3..11] == BigEndian(j, 8);
    Pow256Of4And8();
    BigEndianInjective(i, j, 8);
  }

  lemma NoncesEqualIff(a: Channel, b: Channel, i: nat, last: bool, j: nat, last': bool)
    requires Number(a.layer, i) < TWO64 && Number(b.layer, j) < TWO64
    ensures a.Nonce(i, last) == b.Nonce(j, last') <==> Number(a.layer, i) == Number(b.layer, j) && last == last'
  {
    NonceOfNumber(a, i, last);
    NonceOfNumber(b, j, last');
    if a.Nonce(i, last) == b.Nonce(j, last') {
      RustNonceInjective(Number(a.layer, i), last, Number(b.layer, j), last');
    }
  }

  /** Frames a layer numbers before its counter wraps. */
  function CounterRange(layer: Layer): nat {
    match layer
    case Dart => TWO63
    case Rust => TWO64
  }

  /** Frames a pair of layers can exchange before some counter stops naming one frame. */
  function FrameLimit(sealer: Layer, opener: Layer): nat {
    Min(CounterRange(sealer), CounterRange(opener))
  }

  /** Below the limit a nonce determines both the frame number and the last-flag, even
      when the two sides are different layers. */
  lemma NonceIdentifiesFrame(a: Channel, b: Channel, i: nat, last: bool, j: nat, last': bool)
    requires i < FrameLimit(a.layer, b.layer) && j < FrameLimit(a.layer, b.layer)
    ensures a.Nonce(i, last) == b.Nonce(j, last') <==> i == j && last == last'
  {
    NoncesEqualIff(a, b, i, last, j, last');
  }

  /** The nonce of frame k in a run of n frames: only the final frame has flag 1. */
  function RunNonce(ch: Channel, n: nat, k: nat): bytes {
    ch.Nonce(k, k == n - 1)
  }

  ghost predicate NoncesDistinct(ch: Channel, n: nat) {
    forall j, k :: 0 <= j < k < n ==> RunNonce(ch, n, j) != RunNonce(ch, n, k)
  }

  lemma WrappedDartNonce(ch: Channel, last: bool)
    requires ch.layer == Dart
    ensures ch.Nonce(TWO63, last) == ch.Nonce(0, last)
  {
  }

  /** A Dart run repeats a nonce exactly when its 64-bit counter wraps before the final
      frame: the counter space is 63 bits, not the 88 bits of the nonce prefix. */
  lemma DartNoncesDistinctIff(ch: Channel, n: nat)
    requires ch.layer == Dart
    ensures NoncesDistinct(ch, n) <==> n <= TWO63 + 1
  {
    if n <= TWO63 + 1 {
      forall j, k | 0 <= j < k < n
        ensures RunNonce(ch, n, j) != RunNonce(ch, n, k)
      {
        if k < TWO63 {
          NonceIdentifiesFrame(ch, ch, j, false, k, k == n - 1);
        } else {
          assert k == n - 1;
          assert RunNonce(ch, n, j)[11] == 0 && RunNonce(ch, n, k)[11] == 1;
        }
      }
    } else {
      WrappedDartNonce(ch, false);
      assert RunNonce(ch, n, 0) == RunNonce(ch, n, TWO63);
    }
  }
}
