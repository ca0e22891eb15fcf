/** The PFE1 envelope of lib/src/api/envelope.dart: header printer and parser, and the
    KEM-DEM composition around them. */
module Envelope {
  import opened Bytes
  import opened Channels

  const SALT_LEN: nat := 16
  const HEADER_FIXED_LEN: nat := 39
  const MAGIC: bytes := [0x50, 0x46, 0x45, 0x31]   // "PFE1"
  const VERSION: byte := 1
  const AEAD_AES_256_GCM: byte := 0

  /** The ML-KEM parameter sets, in the order of their ids, with the ciphertext lengths of
      FIPS 203. */
  datatype KemAlgorithm = MlKem512 | MlKem768 | MlKem1024 {
    function Index(): byte {
      match this
      case MlKem512 => 0
      case MlKem768 => 1
      case MlKem1024 => 2
    }

    function CiphertextBytes(): nat {
      match this
      case MlKem512 => 768
      case MlKem768 => 1088
      case MlKem1024 => 1568
    }
  }

  const KEM_ALGORITHMS: seq<KemAlgorithm> := [MlKem512, MlKem768, MlKem1024]

  // ---- the header ----------------------------------------------------------

  datatype Header = Header(kem: KemAlgorithm, salt: bytes, nonce: bytes, kemCt: bytes) {
    /** What a header made by `seal` looks like: random salt and nonce of fixed length. */
    predicate Sized() {
      |salt| == SALT_LEN && |nonce| == NONCE_LEN
    }

    /** The KEM ciphertext has the length its algorithm prescribes. */
    predicate WellFormed() {
      Sized() && |kemCt| == kem.CiphertextBytes()
    }

    /** The wire format. The length field holds the low 32 bits of the length. */
    function Encode(): bytes {
      MAGIC + [VERSION, kem.Index(), AEAD_AES_256_GCM] + salt + nonce + BigEndian(|kemCt|, 4) + kemCt
    }
  }

  datatype Malformation = TooShort | BadMagic | BadVersion | BadKem | BadAead | BadKemLength | TruncatedKem

  datatype Parsed = Rejected(why: Malformation) | Envelope(header: Header, headerBytes: bytes, body: bytes)

  /** `_writeU32`. */
  method WriteU32(b: array<byte>, o: nat, v: nat)
    requires o + 4 <= b.Length
    modifies b
    ensures b[..] == old(b[..o]) + BigEndian(v, 4) + old(b[o + 4..])
  {
    b[o] := v / 0x100_0000 % 256;
    b[o + 1] := v / 0x1_0000 % 256;
    b[o + 2] := v / 0x100 % 256;
    b[o + 3] := v % 256;
    U32Digits(v);
  }

  lemma Shifts(v: nat)
    ensures v / 0x1_0000 == v / 0x100 / 0x100
    ensures v / 0x100_0000 == v / 0x1_0000 / 0x100
  {
  }

  lemma U32Digits(v: nat)
    ensures BigEndian(v, 4) == [v / 0x100_0000 % 256, v / 0x1_0000 % 256, v / 0x100 % 256, v % 256]
  {
    Shifts(v);
    FourDigits(v, v / 0x100, v / 0x1_0000, v / 0x100_0000);
  }

  lemma FourDigits(v: nat, v1: nat, v2: nat, v3: nat)
    requires v1 == v / 256 && v2 == v1 / 256 && v3 == v2 / 256
    ensures BigEndian(v, 4) == [v3 % 256, v2 % 256, v1 % 256, v % 256]
  {
    assert BigEndian(v3, 1) == BigEndian(v3 / 256, 0) + [v3 % 256] == [v3 % 256];
    assert BigEndian(v2, 2) == BigEndian(v3, 1) + [v2 % 256];
    assert BigEndian(v1, 3) == BigEndian(v2, 2) + [v1 % 256];
    assert BigEndian(v, 4) == BigEndian(v1, 3) + [v % 256];
  }

  /** `_readU32`. */
  function ReadU32(b: bytes, o: nat): (v: nat)
    requires o + 4 <= |b|
    ensures v == FromBigEndian(b[o..o + 4])
  {
    U32Value(b[o..o + 4]);
    b[o] as int * 0x100_0000 + b[o + 1] as int * 0x1_0000 + b[o + 2] as int * 0x100 + b[o + 3]
  }

  lemma U32Value(d: bytes)
    requires |d| == 4
    ensures FromBigEndian(d) == d[0] as int * 0x100_0000 + d[1] as int * 0x1_0000 + d[2] as int * 0x100 + d[3]
  {
    assert d[..3][..2] == d[..2] && d[..2][..1] == d[..1] && d[..1][..0] == [];
    assert FromBigEndian(d[..1]) == d[0];
    assert FromBigEndian(d[..2]) == 256 * FromBigEndian(d[..1]) + d[1];
    assert FromBigEndian(d[..3]) == 256 * FromBigEndian(d[..2]) + d[2];
  }

  /** `setAll`. */
  method SetAll(b: array<byte>, o: nat, src: bytes)
    requires o + |src| <= b.Length
    modifies b
    ensures b[..] == old(b[..o]) + src + old(b[o + |src|..])
  {
    forall i | o <= i < o + |src| {
      b[i] := src[i - o];
    }
  }

  /** `_encodeHeader`. */
  method EncodeHeader(h: Header) returns (header: array<byte>)
    requires h.Sized()
    ensures fresh(header) && header[..] == h.Encode()
  {
    header := new byte[HEADER_FIXED_LEN + |h.kemCt|](_ => 0);
    var o := 0;
    SetAll(header, o, MAGIC);
    o := o + 4;
    header[o] := VERSION;
    o := o + 1;
    header[o] := h.kem.Index();
    o := o + 1;
    header[o] := AEAD_AES_256_GCM;
    o := o + 1;
    assert header[..o] == MAGIC + [VERSION, h.kem.Index(), AEAD_AES_256_GCM];
    ghost var done := header[..o];
    SetAll(header, o, h.salt);
    o := o + SALT_LEN;
    done := done + h.salt;
    assert header[..o] == done;
    SetAll(header, o, h.nonce);
    o := o + NONCE_LEN;
    done := done + h.nonce;
    assert header[..o] == done;
    WriteU32(header, o, |h.kemCt|);
    o := o + 4;
    done := done + BigEndian(|h.kemCt|, 4);
    assert header[..o] == done;
    SetAll(header, o, h.kemCt);
    assert header[..] == done + h.kemCt;
  }

  // ---- the parser, byte for byte -------------------------------------------

  /** The ciphertext lengths of ML-KEM-512, 768 and 1024, by their ids 0, 1 and 2. */
  function KemBytes(id: byte): nat {
    if id == 0 then 768 else if id == 1 then 1088 else 1568
  }

  /** "PFE1", version 1, a known KEM, AES-256-GCM, the big-endian length of that KEM's
      ciphertext, and room for it. */
  ghost predicate Acceptable(e: bytes) {
    && |e| >= 39
    && e[..5] == [0x50, 0x46, 0x45, 0x31, 1] && e[5] <= 2 && e[6] == 0
    && e[35..39] == (if e[5] == 0 then [0, 0, 3, 0] else if e[5] == 1 then [0, 0, 4, 0x40] else [0, 0, 6, 0x20])
    && |e| >= 39 + KemBytes(e[5])
  }

  /** The first thing wrong with e. */
  ghost predicate RejectedFor(e: bytes, why: Malformation) {
    match why
    case TooShort => |e| < 39
    case BadMagic => |e| >= 39 && e[..4] != [0x50, 0x46, 0x45, 0x31]
    case BadVersion => |e| >= 39 && e[..4] == [0x50, 0x46, 0x45, 0x31] && e[4] != 1
    case BadKem => |e| >= 39 && e[..5] == [0x50, 0x46, 0x45, 0x31, 1] && e[5] > 2
    case BadAead => |e| >= 39 && e[..5] == [0x50, 0x46, 0x45, 0x31, 1] && e[5] <= 2 && e[6] != 0
    case BadKemLength =>
      && |e| >= 39 && e[..5] == [0x50, 0x46, 0x45, 0x31, 1] && e[5] <= 2 && e[6] == 0
      && ReadU32(e, 35) != KemBytes(e[5])
    case TruncatedKem =>
      && |e| >= 39 && e[..5] == [0x50, 0x46, 0x45, 0x31, 1] && e[5] <= 2 && e[6] == 0
      && ReadU32(e, 35) == KemBytes(e[5]) && |e| < 39 + KemBytes(e[5])
  }

  /** `_decode`. The magic loop, and a cursor that only moves forward. Byte for byte: what is
      accepted, as what, and which error anything else is. */
  method Decode(e: array<byte>) returns (r: Parsed)
    ensures r == Parse(e[..])
    ensures r.Envelope? <==> Acceptable(e[..])
    ensures r.Envelope? ==>
              && r.header.kem == (if e[5] == 0 then MlKem512 else if e[5] == 1 then MlKem768 else MlKem1024)
              && r.header.salt == e[7..23] && r.header.nonce == e[23..35]
              && r.header.kemCt == e[39..39 + KemBytes(e[5])]
              && r.headerBytes == e[..39 + KemBytes(e[5])] && r.body == e[39 + KemBytes(e[5])..]
    ensures r.Rejected? ==> RejectedFor(e[..], r.why)
  {
    AcceptedBytes(e[..]);
    RejectedBytes(e[..]);
    if e.Length < HEADER_FIXED_LEN {
      return Rejected(TooShort);
    }
    var i := 0;
    while i < 4
      invariant 0 <= i <= 4 && e[..i] == MAGIC[..i]
    {
      if e[i] != MAGIC[i] {
        assert e[..4][i] != MAGIC[i];
        return Rejected(BadMagic);
      }
      i := i + 1;
    }
    assert MAGIC[..4] == MAGIC;
    var o := 4;
    var version := e[o];
    o := o + 1;
    if version != VERSION {
      return Rejected(BadVersion);
    }
    var kemAlgId := e[o];
    o := o + 1;
    if kemAlgId >= |KEM_ALGORITHMS| {
      return Rejected(BadKem);
    }
    var kemAlg := KEM_ALGORITHMS[kemAlgId];
    var aeadId := e[o];
    o := o + 1;
    if aeadId != AEAD_AES_256_GCM {
      return Rejected(BadAead);
    }
    var salt := e[o..o + SALT_LEN];
    o := o + SALT_LEN;
    var nonce := e[o..o + NONCE_LEN];
    o := o + NONCE_LEN;
    var kemCtLen := ReadU32(e[..], o);
    o := o + 4;
    if kemCtLen != kemAlg.CiphertextBytes() {
      return Rejected(BadKemLength);
    }
    if o + kemCtLen > e.Length {
      return Rejected(TruncatedKem);
    }
    var kemCt := e[o..o + kemCtLen];
    o := o + kemCtLen;
    return Envelope(Header(kemAlg, salt, nonce, kemCt), e[..o], e[o..]);
  }

  /** What `_decode` computes, check by check, in its order. */
  function Parse(e: bytes): Parsed {
    if |e| < HEADER_FIXED_LEN then Rejected(TooShort)
    else if e[..4] != MAGIC then Rejected(BadMagic)
    else if e[4] != VERSION then Rejected(BadVersion)
    else if e[5] as int >= |KEM_ALGORITHMS| then Rejected(BadKem)
    else if e[6] != AEAD_AES_256_GCM then Rejected(BadAead)
    else
      var kem, len := KEM_ALGORITHMS[e[5]], FromBigEndian(e[35..39]);
      if len != kem.CiphertextBytes() then Rejected(BadKemLength)
      else if 39 + len > |e| then Rejected(TruncatedKem)
      else Envelope(Header(kem, e[7..23], e[23..35], e[39..39 + len]), e[..39 + len], e[39 + len..])
  }

  // ---- printer and parser --------------------------------------------------

  /** Four bytes that denote 0x300, 0x440 or 0x620 are those digits. */
  lemma KemLengthDigits(d: bytes)
    requires |d| == 4
    ensures FromBigEndian(d) == 768 <==> d == [0, 0, 3, 0]
    ensures FromBigEndian(d) == 1088 <==> d == [0, 0, 4, 0x40]
    ensures FromBigEndian(d) == 1568 <==> d == [0, 0, 6, 0x20]
  {
    U32Value(d);
  }

  /** The accepted strings, byte by byte, and the fields taken from them. */
  lemma AcceptedBytes(e: bytes)
    ensures Parse(e).Envelope? <==> Acceptable(e)
    ensures Acceptable(e) ==>
              var kem := if e[5] == 0 then MlKem512 else if e[5] == 1 then MlKem768 else MlKem1024;
              var end := 39 + KemBytes(e[5]);
              Parse(e) == Envelope(Header(kem, e[7..23], e[23..35], e[39..end]), e[..end], e[end..])
  {
    if |e| >= 39 {
      KemLengthDigits(e[35..39]);
    }
  }

  /** Every other string is rejected for the first thing wrong with it. */
  lemma RejectedBytes(e: bytes)
    ensures Parse(e).Rejected? ==> RejectedFor(e, Parse(e).why)
  {
  }

  /** Where the fields of an encoded header are, whatever follows it. */
  lemma EncodedFields(h: Header, rest: bytes)
    requires h.Sized()
    ensures var e := h.Encode() + rest;
            && |h.Encode()| == 39 + |h.kemCt|
            && e[..4] == [0x50, 0x46, 0x45, 0x31] && e[4] == 1 && e[6] == 0
            && e[5] == (match h.kem case MlKem512 => 0 case MlKem768 => 1 case MlKem1024 => 2)
            && e[7..23] == h.salt && e[23..35] == h.nonce && e[35..39] == BigEndian(|h.kemCt|, 4)
            && e[39..39 + |h.kemCt|] == h.kemCt && e[39 + |h.kemCt|..] == rest
            && e[..39 + |h.kemCt|] == h.Encode()
  {
  }

  /** Printing then parsing gives the header back, and leaves exactly what followed it, if
      and only if the KEM ciphertext has its algorithm's length. */
  lemma DecodeAfterEncodeIff(h: Header, body: bytes)
    requires h.Sized()
    ensures Parse(h.Encode() + body) == Envelope(h, h.Encode(), body) <==> h.WellFormed()
  {
    EncodedFields(h, body);
    if h.WellFormed() {
      Pow256Of4And8();
      BigEndianRoundTrip(|h.kemCt|, 4);
    }
  }

  /** Whatever the parser accepts is a well-formed header, printed, followed by the body. */
  lemma EncodeAfterDecode(e: bytes)
    requires Parse(e).Envelope?
    ensures var r := Parse(e);
            r.header.WellFormed() && r.headerBytes == r.header.Encode() && e == r.headerBytes + r.body
  {
    var r := Parse(e);
    BigEndianOnto(e[35..39]);
    var len := FromBigEndian(e[35..39]);
    assert e[..39 + len] == e[..4] + e[4..7] + e[7..23] + e[23..35] + e[35..39] + e[39..39 + len];
    assert e[4..7] == [VERSION, r.header.kem.Index(), AEAD_AES_256_GCM];
  }

  /** The parser accepts exactly the strings that start with a well-formed header. */
  lemma ParseAcceptsIff(e: bytes)
    ensures Parse(e).Envelope? <==> exists h: Header, body :: h.WellFormed() && e == h.Encode() + body
  {
    if Parse(e).Envelope? {
      EncodeAfterDecode(e);
    }
    if exists h: Header, body :: h.WellFormed() && e == h.Encode() + body {
      var h: Header, body :| h.WellFormed() && e == h.Encode() + body;
      DecodeAfterEncodeIff(h, body);
    }
  }

  /** Headers delimit themselves: header and associated data can be told apart in their
      concatenation, for every KEM ciphertext length that fits the length field. */
  lemma AuthDataUnique(h: Header, aad: bytes, h': Header, aad': bytes)
    requires h.Sized() && h'.Sized() && |h.kemCt| < TWO32 && |h'.kemCt| < TWO32
    requires h.Encode() + aad == h'.Encode() + aad'
    ensures h == h' && aad == aad'
  {
    EncodedFields(h, aad);
    EncodedFields(h', aad');
    Pow256Of4And8();
    BigEndianInjective(|h.kemCt|, |h'.kemCt|, 4);
  }

  // ---- the KEM-DEM composition ---------------------------------------------

  /** The primitives: ML-KEM, HKDF-SHA256 with the fixed info string and key length, and
      AES-256-GCM. Decapsulation may reject its inputs. */
  datatype Suite = Suite(
    encaps: (KemAlgorithm, bytes, bytes) -> (bytes, bytes),
    decaps: (KemAlgorithm, bytes, bytes) -> Option<bytes>,
    hkdf: (bytes, bytes) -> bytes,
    aead: Aead)

  /** `_authData`: without associated data the header itself, uncopied. */
  method AuthData(header: array<byte>, aad: Option<bytes>) returns (out: array<byte>)
    ensures aad.Some? ==> out[..] == header[..] + aad.value
    ensures aad == None ==> out[..] == header[..]
    ensures if aad == None || aad.value == [] then out == header else fresh(out)
  {
    if aad == None || aad.value == [] {
      return header;
    }
    out := new byte[header.Length + |aad.value|](_ => 0);
    SetAll(out, 0, header[..]);
    SetAll(out, header.Length, aad.value);
    assert out[..header.Length] == header[..];
  }

  /** One call of `seal`: what was drawn, derived and authenticated. */
  datatype SealedEnvelope = SealedEnvelope(header: Header, key: bytes, aad: bytes, plaintext: bytes) {
    function Body(aead: Aead): bytes {
      aead.seal(key, header.nonce, header.Encode() + aad, plaintext)
    }

    function Bytes(aead: Aead): bytes {
      header.Encode() + Body(aead)
    }
  }

  /** The envelope sealed with the given encapsulation coins, salt and nonce. */
  function SealSpec(s: Suite, kem: KemAlgorithm, pk: bytes, plaintext: bytes, aad: bytes,
                    coins: bytes, salt: bytes, nonce: bytes): SealedEnvelope
  {
    var (kemCt, secret) := s.encaps(kem, pk, coins);
    SealedEnvelope(Header(kem, salt, nonce, kemCt), s.hkdf(secret, salt), aad, plaintext)
  }

  /** `seal`; the random draws are parameters. The key is derived from the encapsulated
      secret and the salt, and seals under the nonce with the header and the caller's
      associated data authenticated. */
  method Seal(s: Suite, kem: KemAlgorithm, pk: bytes, plaintext: bytes, aad: Option<bytes>,
              coins: bytes, salt: bytes, nonce: bytes)
    returns (out: array<byte>)
    requires |salt| == SALT_LEN && |nonce| == NONCE_LEN
    ensures fresh(out)
    ensures out[..] == SealSpec(s, kem, pk, plaintext, AdOf(aad), coins, salt, nonce).Bytes(s.aead)
    ensures var (kemCt, secret) := s.encaps(kem, pk, coins);
            var key, header := s.hkdf(secret, salt), Header(kem, salt, nonce, kemCt).Encode();
            out[..] == header + s.aead.seal(key, nonce, if aad.Some? then header + aad.value else header, plaintext)
  {
    var (kemCt, secret) := s.encaps(kem, pk, coins);
    var key := s.hkdf(secret, salt);
    var header := EncodeHeader(Header(kem, salt, nonce, kemCt));
    var ad := AuthData(header, aad);
    assert ad[..] == header[..] + AdOf(aad);
    var body := s.aead.seal(key, nonce, ad[..], plaintext);
    out := new byte[header.Length + |body|](_ => 0);
    SetAll(out, 0, header[..]);
    SetAll(out, header.Length, body);
    assert out[..header.Length] == header[..];
  }

  datatype OpenResult = Malformed(why: Malformation) | KemFailed | Unauthentic | Plain(plaintext: bytes)

  /** The AEAD key a recipient derives for a header. */
  function KeyFor(s: Suite, sk: bytes, h: Header): Option<bytes> {
    var secret := s.decaps(h.kem, sk, h.kemCt);
    if secret == None then None else Some(s.hkdf(secret.value, h.salt))
  }

  function OpenSpec(s: Suite, sk: bytes, e: bytes, aad: bytes): OpenResult {
    match Parse(e)
    case Rejected(why) => Malformed(why)
    case Envelope(h, headerBytes, body) =>
      var key := KeyFor(s, sk, h);
      if key == None then KemFailed
      else match s.aead.open(key.value, h.nonce, headerBytes + aad, body)
           case None => Unauthentic
           case Some(p) => Plain(p)
  }

  /** `open`, byte for byte. */
  method Open(s: Suite, sk: bytes, e: array<byte>, aad: Option<bytes>) returns (r: OpenResult)
    ensures r == OpenSpec(s, sk, e[..], AdOf(aad))
    ensures r.Malformed? <==> !Acceptable(e[..])
    ensures r.Malformed? ==> RejectedFor(e[..], r.why)
    ensures Acceptable(e[..]) ==>
              var kem := if e[5] == 0 then MlKem512 else if e[5] == 1 then MlKem768 else MlKem1024;
              var end := 39 + KemBytes(e[5]);
              match s.decaps(kem, sk, e[39..end])
              case None => r == KemFailed
              case Some(secret) =>
                var ad := if aad.Some? then e[..end] + aad.value else e[..end];
                match s.aead.open(s.hkdf(secret, e[7..23]), e[23..35], ad, e[end..])
                case None => r == Unauthentic
                case Some(p) => r == Plain(p)
  {
    AcceptedBytes(e[..]);
    var parsed := Decode(e);
    if parsed.Rejected? {
      return Malformed(parsed.why);
    }
    var secret := s.decaps(parsed.header.kem, sk, parsed.header.kemCt);
    if secret == None {
      return KemFailed;
    }
    var key := s.hkdf(secret.value, parsed.header.salt);
    var header := new byte[|parsed.headerBytes|](i requires 0 <= i < |parsed.headerBytes| => parsed.headerBytes[i]);
    assert header[..] == parsed.headerBytes;
    var ad := AuthData(header, aad);
    assert ad[..] == header[..] + AdOf(aad);
    match s.aead.open(key, parsed.header.nonce, ad[..], parsed.body) {
      case None => r := Unauthentic;
      case Some(p) => r := Plain(p);
    }
  }

  /** What `open` makes of a printed header and a body: decapsulation under the header's
      algorithm, the key from the secret and the header's salt, and the AEAD under the
      header's nonce, with the header and the caller's associated data authenticated. */
  lemma OpenByCases(s: Suite, sk: bytes, h: Header, body: bytes, aad: Option<bytes>)
    requires h.WellFormed()
    ensures var r := OpenSpec(s, sk, h.Encode() + body, AdOf(aad));
            match s.decaps(h.kem, sk, h.kemCt)
            case None => r == KemFailed
            case Some(secret) =>
              var ad := if aad.Some? then h.Encode() + aad.value else h.Encode();
              match s.aead.open(s.hkdf(secret, h.salt), h.nonce, ad, body)
              case None => r == Unauthentic
              case Some(p) => r == Plain(p)
  {
    DecodeAfterEncodeIff(h, body);
    assert h.Encode() + [] == h.Encode();
  }

  /** A format error is reported exactly for the strings that do not start with a printed
      well-formed header, whatever the keys and the associated data. */
  lemma MalformedIff(s: Suite, sk: bytes, e: bytes, aad: Option<bytes>)
    ensures OpenSpec(s, sk, e, AdOf(aad)).Malformed?
            <==> !exists h: Header, body :: h.WellFormed() && e == h.Encode() + body
    ensures OpenSpec(s, sk, e, AdOf(aad)).Malformed? ==> RejectedFor(e, OpenSpec(s, sk, e, AdOf(aad)).why)
  {
    ParseAcceptsIff(e);
    RejectedBytes(e);
  }

  // ---- main theorems -------------------------------------------------------

  /** The AEAD integrity hypothesis: what opens is exactly what was sealed. */
  ghost predicate Authentic(aead: Aead, issued: set<SealedEnvelope>) {
    && (forall s <- issued :: s.header.Sized() && |s.header.kemCt| < TWO32)
    && (forall key, nonce, ad, ct :: aead.open(key, nonce, ad, ct).Some? ==>
          exists s <- issued :: IsTuple(aead, s, key, nonce, ad, ct))
    && (forall s <- issued ::
          aead.open(s.key, s.header.nonce, s.header.Encode() + s.aad, s.Body(aead)) == Some(s.plaintext))
  }

  ghost predicate IsTuple(aead: Aead, s: SealedEnvelope, key: bytes, nonce: bytes, ad: bytes, ct: bytes) {
    key == s.key && nonce == s.header.nonce && ad == s.header.Encode() + s.aad && ct == s.Body(aead)
  }

  /** No two envelopes share key, nonce, associated data and body but not the plaintext. */
  ghost predicate Unambiguous(mute: Aead, issued: set<SealedEnvelope>) {
    forall s <- issued, t <- issued ::
      IsTuple(mute, s, t.key, t.header.nonce, t.header.Encode() + t.aad, t.Body(mute)) ==> s.plaintext == t.plaintext
  }

  /** The opener that accepts precisely the issued tuples. */
  ghost function LookUp(mute: Aead, issued: set<SealedEnvelope>, key: bytes, nonce: bytes, ad: bytes, ct: bytes)
    : Option<bytes>
  {
    if s :| s in issued && IsTuple(mute, s, key, nonce, ad, ct) then Some(s.plaintext) else None
  }

  /** For unambiguous envelopes some opener meets the hypothesis. */
  lemma AuthenticIsSatisfiable(mute: Aead, issued: set<SealedEnvelope>) returns (aead: Aead)
    requires forall s <- issued :: s.header.Sized() && |s.header.kemCt| < TWO32
    requires Unambiguous(mute, issued)
    ensures aead.seal == mute.seal && Authentic(aead, issued)
  {
    aead := Aead(mute.seal, (key, nonce, ad, ct) => LookUp(mute, issued, key, nonce, ad, ct));
    forall key, nonce, ad, ct | aead.open(key, nonce, ad, ct).Some?
      ensures exists s <- issued :: IsTuple(aead, s, key, nonce, ad, ct)
    {
      var s :| s in issued && IsTuple(mute, s, key, nonce, ad, ct);
      assert IsTuple(aead, s, key, nonce, ad, ct);
    }
    forall t <- issued
      ensures aead.open(t.key, t.header.nonce, t.header.Encode() + t.aad, t.Body(aead)) == Some(t.plaintext)
    {
      assert IsTuple(mute, t, t.key, t.header.nonce, t.header.Encode() + t.aad, t.Body(mute));
    }
  }

  lemma AuthenticIsUnambiguous(aead: Aead, issued: set<SealedEnvelope>)
    requires Authentic(aead, issued)
    ensures Unambiguous(aead, issued)
  {
    forall s <- issued, t <- issued | IsTuple(aead, s, t.key, t.header.nonce, t.header.Encode() + t.aad, t.Body(aead))
      ensures s.plaintext == t.plaintext
    {
      assert aead.open(s.key, s.header.nonce, s.header.Encode() + s.aad, s.Body(aead)) == Some(s.plaintext);
    }
  }

  /** The hypothesis can be met exactly for unambiguous sets of envelopes with well-sized
      headers. */
  lemma SatisfiableIff(mute: Aead, issued: set<SealedEnvelope>)
    ensures (exists aead: Aead :: aead.seal == mute.seal && Authentic(aead, issued))
            <==> (forall s <- issued :: s.header.Sized() && |s.header.kemCt| < TWO32) && Unambiguous(mute, issued)
  {
    if aead: Aead :| aead.seal == mute.seal && Authentic(aead, issued) {
      AuthenticIsUnambiguous(aead, issued);
    }
    if (forall s <- issued :: s.header.Sized() && |s.header.kemCt| < TWO32) && Unambiguous(mute, issued) {
      var aead := AuthenticIsSatisfiable(mute, issued);
    }
  }

  /** With a correct suite every set of envelopes is unambiguous. */
  lemma CorrectIsUnambiguous(aead: Aead, issued: set<SealedEnvelope>)
    requires Correct(aead)
    ensures Unambiguous(aead, issued)
  {
    forall s <- issued, t <- issued | IsTuple(aead, s, t.key, t.header.nonce, t.header.Encode() + t.aad, t.Body(aead))
      ensures s.plaintext == t.plaintext
    {
      var ad := s.header.Encode() + s.aad;
      assert aead.open(s.key, s.header.nonce, ad, s.Body(aead)) == Some(s.plaintext);
      assert aead.open(t.key, t.header.nonce, ad, t.Body(aead)) == Some(t.plaintext);
    }
  }

  /** What it takes to open e with sk and aad as the sealed envelope s. */
  ghost predicate Matches(u: Suite, s: SealedEnvelope, sk: bytes, e: bytes, aad: bytes) {
    && e == s.Bytes(u.aead) && aad == s.aad
    && s.header.WellFormed() && KeyFor(u, sk, s.header) == Some(s.key)
  }

  /** Tamper theorem: an envelope opens to p if and only if it is, byte for byte, one that
      was sealed, presented with the same associated data and to a recipient whose KEM
      recovers its key, and p is what was sealed in it. */
  lemma OpenIff(u: Suite, issued: set<SealedEnvelope>, sk: bytes, e: bytes, aad: bytes, p: bytes)
    requires Authentic(u.aead, issued)
    ensures OpenSpec(u, sk, e, aad) == Plain(p)
            <==> exists s <- issued :: Matches(u, s, sk, e, aad) && s.plaintext == p
  {
    if OpenSpec(u, sk, e, aad) == Plain(p) {
      var parsed := Parse(e);
      var h := parsed.header;
      EncodeAfterDecode(e);
      var key := KeyFor(u, sk, h).value;
      var s :| s in issued && IsTuple(u.aead, s, key, h.nonce, parsed.headerBytes + aad, parsed.body);
      AuthDataUnique(h, aad, s.header, s.aad);
      assert Matches(u, s, sk, e, aad);
    }
    if s :| s in issued && Matches(u, s, sk, e, aad) && s.plaintext == p {
      DecodeAfterEncodeIff(s.header, s.Body(u.aead));
    }
  }

  /** With one envelope sealed, every other envelope and every other associated data is
      rejected. */
  lemma TamperedIsRejected(u: Suite, s: SealedEnvelope, sk: bytes, e: bytes, aad: Option<bytes>)
    requires Authentic(u.aead, {s})
    requires e != s.Bytes(u.aead) || AdOf(aad) != s.aad
    ensures !OpenSpec(u, sk, e, AdOf(aad)).Plain?
  {
    var r := OpenSpec(u, sk, e, AdOf(aad));
    if r.Plain? {
      OpenIff(u, {s}, sk, e, AdOf(aad), r.plaintext);
    }
  }

  /** Under AEAD integrity, a well-formed header whose KEM ciphertext decapsulates is
      reported as an authentication failure exactly if no sealed envelope matches. */
  lemma UnauthenticIff(u: Suite, issued: set<SealedEnvelope>, sk: bytes, h: Header, body: bytes, aad: Option<bytes>)
    requires Authentic(u.aead, issued) && h.WellFormed() && u.decaps(h.kem, sk, h.kemCt).Some?
    ensures OpenSpec(u, sk, h.Encode() + body, AdOf(aad)) == Unauthentic
            <==> forall s <- issued :: !Matches(u, s, sk, h.Encode() + body, AdOf(aad))
  {
    var e := h.Encode() + body;
    var r := OpenSpec(u, sk, e, AdOf(aad));
    OpenByCases(u, sk, h, body, aad);
    if r.Plain? {
      OpenIff(u, issued, sk, e, AdOf(aad), r.plaintext);
    }
    if s :| s in issued && Matches(u, s, sk, e, AdOf(aad)) {
      OpenIff(u, issued, sk, e, AdOf(aad), s.plaintext);
    }
  }

  /** Whatever `seal` made, with or without associated data: another body, or associated
      data that is not the same (null and empty are), is an authentication failure; another
      envelope of any kind does not open. */
  lemma AlteredIsRejected(u: Suite, kem: KemAlgorithm, pk: bytes, plaintext: bytes, aad: Option<bytes>,
                          coins: bytes, salt: bytes, nonce: bytes,
                          sk: bytes, e: bytes, aad': Option<bytes>)
    requires |salt| == 16 && |nonce| == 12
    requires Authentic(u.aead, {SealSpec(u, kem, pk, plaintext, AdOf(aad), coins, salt, nonce)})
    requires e != SealSpec(u, kem, pk, plaintext, AdOf(aad), coins, salt, nonce).Bytes(u.aead) || !SameAad(aad, aad')
    ensures !OpenSpec(u, sk, e, AdOf(aad')).Plain?
    ensures var kemCt := u.encaps(kem, pk, coins).0;
            var h := Header(kem, salt, nonce, kemCt);
            h.WellFormed() && u.decaps(kem, sk, kemCt).Some? && h.Encode() <= e ==>
              OpenSpec(u, sk, e, AdOf(aad')) == Unauthentic
  {
    var s := SealSpec(u, kem, pk, plaintext, AdOf(aad), coins, salt, nonce);
    SameAadIff(aad, aad');
    TamperedIsRejected(u, s, sk, e, aad');
    if s.header.WellFormed() && u.decaps(kem, sk, s.header.kemCt).Some? && s.header.Encode() <= e {
      var body := e[|s.header.Encode()|..];
      assert e == s.header.Encode() + body;
      OpenByCases(u, sk, s.header, body, aad');
    }
  }

  /** The secret key sk decapsulates what is encapsulated to pk. */
  ghost predicate KemPair(s: Suite, kem: KemAlgorithm, pk: bytes, sk: bytes) {
    forall coins ::
      var (kemCt, secret) := s.encaps(kem, pk, coins);
      |kemCt| == kem.CiphertextBytes() && s.decaps(kem, sk, kemCt) == Some(secret)
  }

  /** An untouched envelope opens to its plaintext; a null and an empty associated data are
      the same thing. */
  lemma EnvelopeRoundTrip(s: Suite, kem: KemAlgorithm, pk: bytes, sk: bytes, plaintext: bytes,
                          aad: Option<bytes>, aad': Option<bytes>, coins: bytes, salt: bytes, nonce: bytes)
    requires |salt| == SALT_LEN && |nonce| == NONCE_LEN
    requires KemPair(s, kem, pk, sk) && Correct(s.aead) && SameAad(aad, aad')
    ensures OpenSpec(s, sk, SealSpec(s, kem, pk, plaintext, AdOf(aad), coins, salt, nonce).Bytes(s.aead), AdOf(aad'))
         == Plain(plaintext)
  {
    var (kemCt, secret) := s.encaps(kem, pk, coins);
    var env := SealSpec(s, kem, pk, plaintext, AdOf(aad), coins, salt, nonce);
    SameAadIff(aad, aad');
    DecodeAfterEncodeIff(env.header, env.Body(s.aead));
  }
}
