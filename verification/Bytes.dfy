/** Byte strings, concatenation of frame lists, and big-endian integers. */
module Bytes {
  type byte = b: int | 0 <= b < 256
  type bytes = seq<byte>

  type pos = n: int | n > 0 witness 1

  datatype Option<+T> = None | Some(value: T)

  const TWO32: int := 0x1_0000_0000
  const TWO63: int := 0x8000_0000_0000_0000
  const TWO64: int := 0x1_0000_0000_0000_0000

  function Min(a: int, b: int): int {
    if a <= b then a else b
  }

  function Positive(n: int): nat {
    if n > 0 then n else 0
  }

  function Zeros(k: nat): (z: bytes)
    ensures |z| == k
  {
    seq(k, _ => 0)
  }

  // ---- division ------------------------------------------------------------

  lemma MulGap(a: int, b: int, c: pos)
    requires a < b
    ensures a * c + c <= b * c
  {
    assert (b - a - 1) * c >= 0;
    assert (b - a - 1) * c == b * c - a * c - c;
  }

  lemma DivUnique(x: int, q: int, r: int, c: pos)
    requires x == q * c + r && 0 <= r < c
    ensures x / c == q
  {
    var q' := x / c;
    if q' < q {
      MulGap(q', q, c);
    } else if q < q' {
      MulGap(q, q', c);
    }
  }

  // ---- concatenation -------------------------------------------------------

  function Flat(parts: seq<bytes>): bytes {
    if parts == [] then [] else parts[0] + Flat(parts[1..])
  }

  lemma {:induction false} FlatAppend(a: seq<bytes>, b: seq<bytes>)
    ensures Flat(a + b) == Flat(a) + Flat(b)
  {
    if a == [] {
      assert a + b == b;
    } else {
      assert (a + b)[1..] == a[1..] + b;
      FlatAppend(a[1..], b);
    }
  }

  lemma FlatSingle(p: bytes)
    ensures Flat([p]) == p
  {
  }

  lemma FlatPrefix(a: seq<bytes>, b: seq<bytes>)
    requires a <= b
    ensures Flat(a) <= Flat(b)
  {
    assert b == a + b[|a|..];
    FlatAppend(a, b[|a|..]);
  }

  lemma FlatSplit(a: seq<bytes>, i: nat)
    requires i <= |a|
    ensures Flat(a) == Flat(a[..i]) + Flat(a[i..])
  {
    assert a == a[..i] + a[i..];
    FlatAppend(a[..i], a[i..]);
  }

  lemma FlatTake(a: seq<bytes>, i: nat)
    requires i < |a|
    ensures Flat(a[..i + 1]) == Flat(a[..i]) + a[i]
  {
    var front := a[..i];
    assert a[..i + 1] == front + [a[i]];
    FlatAppend(front, [a[i]]);
    FlatSingle(a[i]);
  }

  lemma FlatDrop(a: seq<bytes>, i: nat)
    requires i < |a|
    ensures a[i..] == [a[i]] + a[i + 1..]
    ensures Flat(a[i..]) == a[i] + Flat(a[i + 1..])
  {
    var rest := a[i..];
    assert rest[1..] == a[i + 1..];
  }

  // ---- big-endian integers -------------------------------------------------

  function Pow256(k: nat): (r: nat)
    ensures r >= 1
  {
    if k == 0 then 1 else 256 * Pow256(k - 1)
  }

  /** The k low-order base-256 digits of v, most significant first. */
  function BigEndian(v: nat, k: nat): (r: bytes)
    ensures |r| == k
  {
    if k == 0 then [] else BigEndian(v / 256, k - 1) + [v % 256]
  }

  function FromBigEndian(b: bytes): nat {
    if b == [] then 0 else 256 * FromBigEndian(b[..|b| - 1]) + b[|b| - 1]
  }

  /** Reading back what was written recovers every value that fits. */
  lemma {:induction false} BigEndianRoundTrip(v: nat, k: nat)
    requires v < Pow256(k)
    ensures FromBigEndian(BigEndian(v, k)) == v
  {
    if k > 0 {
      BigEndianRoundTrip(v / 256, k - 1);
      assert BigEndian(v, k)[..k - 1] == BigEndian(v / 256, k - 1);
    }
  }

  /** Digits that do not fit are lost. */
  lemma {:induction false} BigEndianMod(v: nat, k: nat)
    ensures FromBigEndian(BigEndian(v, k)) == v % Pow256(k)
  {
    if k > 0 {
      BigEndianMod(v / 256, k - 1);
      assert BigEndian(v, k)[..k - 1] == BigEndian(v / 256, k - 1);
      ModDigit(v, Pow256(k - 1));
    }
  }

  lemma ModDigit(v: nat, p: pos)
    ensures v % (256 * p) == 256 * (v / 256 % p) + v % 256
  {
    var q, r := v / 256 / p, v / 256 % p;
    assert v == 256 * (q * p + r) + v % 256;
    assert v == q * (256 * p) + (256 * r + v % 256);
    DivUnique(v, q, 256 * r + v % 256, 256 * p);
  }

  /** Every k-byte string is the encoding of exactly the number it denotes. */
  lemma {:induction false} BigEndianOnto(b: bytes)
    ensures FromBigEndian(b) < Pow256(|b|)
    ensures BigEndian(FromBigEndian(b), |b|) == b
  {
    if b != [] {
      var front, d, k := b[..|b| - 1], b[|b| - 1], |b| - 1;
      BigEndianOnto(front);
      var v := FromBigEndian(front);
      assert FromBigEndian(b) == 256 * v + d;
      assert (256 * v + d) / 256 == v && (256 * v + d) % 256 == d;
      assert b == front + [d];
    }
  }

  lemma BigEndianInjective(v: nat, w: nat, k: nat)
    requires v < Pow256(k) && w < Pow256(k)
    requires BigEndian(v, k) == BigEndian(w, k)
    ensures v == w
  {
    BigEndianRoundTrip(v, k);
    BigEndianRoundTrip(w, k);
  }

  lemma {:induction false} BigEndianZero(k: nat)
    ensures BigEndian(0, k) == Zeros(k)
  {
    if k > 0 {
      BigEndianZero(k - 1);
    }
  }

  /** A value that fits in k bytes is only zero-padded by a wider encoding. */
  lemma {:induction false} BigEndianPad(v: nat, k: nat, pad: nat)
    requires v < Pow256(k)
    ensures BigEndian(v, pad + k) == Zeros(pad) + BigEndian(v, k)
  {
    if k == 0 {
      BigEndianZero(pad);
    } else {
      BigEndianPad(v / 256, k - 1, pad);
    }
  }

  lemma Pow256Of4And8()
    ensures Pow256(4) == TWO32
    ensures Pow256(8) == TWO64
  {
    assert Pow256(2) == 0x1_0000;
    assert Pow256(4) == 256 * (256 * Pow256(2));
    assert Pow256(6) == 256 * (256 * Pow256(4));
    assert Pow256(8) == 256 * (256 * Pow256(6));
  }
}
