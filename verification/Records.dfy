/** The three record layouts of `src/aead`, on values: nonce and additional-data
    construction, what an encrypter puts on the wire, what a decrypter makes of any record. */
module Records {
  import opened Bytes
  import opened Aead

  const NONCE_LEN := 12
  const EXPLICIT_NONCE_LEN := 8
  const FIXED_IV_LEN := 4
  const MAX_FRAGMENT_LEN := 0x4000
  const APPLICATION_DATA: byte := 23
  const TLS12: u16 := 0x0303
  const TLS13: u16 := 0x0304

  type Iv = s: seq<byte> | |s| == NONCE_LEN witness Zeros(12)
  type FixedIv = s: seq<byte> | |s| == FIXED_IV_LEN witness Zeros(4)

  datatype Plain = Plain(typ: byte, version: u16, payload: seq<byte>)
  datatype Record = Record(typ: byte, version: u16, payload: seq<byte>)

  /** TooShort is rustls's `DecryptError`; TagMismatch is the `General` error of a failed AEAD call. */
  datatype RecordError = TooShort | TagMismatch | OversizedRecord | IllegalInnerPlaintext

  // ---------------------------------------------------------------- rustls helpers

  /** `Nonce::new`: section 5.3 of RFC 8446. */
  function NonceFor(iv: Iv, sequence: u64): (nonce: Iv) {
    XorSeq(Zeros(4) + ToBE(sequence, 8), iv)
  }

  /** `make_tls12_aad`: section 6.2.3.3 of RFC 5246, the length truncated to 16 bits. */
  function MakeTls12Aad(sequence: u64, typ: byte, version: u16, len: nat): (aad: seq<byte>) {
    ToBE(sequence, 8) + [typ] + ToBE(version, 2) + ToBE(len, 2)
  }

  /** `make_tls13_aad`: section 5.2 of RFC 8446. */
  function MakeTls13Aad(len: nat): (aad: seq<byte>) {
    [APPLICATION_DATA] + ToBE(TLS12, 2) + ToBE(len, 2)
  }

  /** Drops the zero padding at the end of an inner plaintext. */
  function StripZeros(inner: seq<byte>): (s: seq<byte>)
    ensures s <= inner
    ensures s == [] || s[|s| - 1] != 0
  {
    if inner == [] || inner[|inner| - 1] != 0 then inner else StripZeros(inner[..|inner| - 1])
  }

  /** `into_tls13_unpadded_message`: section 5.4 of RFC 8446. */
  function Unpad(inner: seq<byte>): Result<Plain, RecordError> {
    if |inner| > MAX_FRAGMENT_LEN + 1 then Err(OversizedRecord)
    else
      var s := StripZeros(inner);
      if s == [] then Err(IllegalInnerPlaintext)
      else Ok(Plain(s[|s| - 1], TLS13, s[..|s| - 1]))
  }

  // ---------------------------------------------------------------- TLS 1.2 GCM

  function SealGcm12(p: Primitive, key: seq<byte>, nonce: Iv, m: Plain, sequence: u64): Sealed {
    Seal(p, key, nonce, MakeTls12Aad(sequence, m.typ, m.version, |m.payload|), m.payload)
  }

  function WireGcm12(m: Plain, x: Sealed): Record
    requires |x.nonce| == NONCE_LEN
  {
    Record(m.typ, m.version, x.nonce[FIXED_IV_LEN..] + x.ciphertext + x.tag)
  }

  function EncryptGcm12(p: Primitive, key: seq<byte>, iv: Iv, m: Plain, sequence: u64): Record {
    WireGcm12(m, SealGcm12(p, key, NonceFor(iv, sequence), m, sequence))
  }

  /** The AEAD tuple a decrypter reads off a record, unless the record is too short. */
  function ParseGcm12(fixedIv: FixedIv, r: Record, sequence: u64): Option<Sealed> {
    var n := |r.payload|;
    if n < EXPLICIT_NONCE_LEN + TAG_LEN then None
    else Some(Sealed(
                fixedIv + r.payload[..EXPLICIT_NONCE_LEN],
                MakeTls12Aad(sequence, r.typ, r.version, n - TAG_LEN - EXPLICIT_NONCE_LEN),
                r.payload[EXPLICIT_NONCE_LEN..n - TAG_LEN],
                r.payload[n - TAG_LEN..]))
  }

  // ---------------------------------------------------------------- TLS 1.2 ChaCha20-Poly1305

  function SealChaCha12(p: Primitive, key: seq<byte>, iv: Iv, m: Plain, sequence: u64): Sealed {
    Seal(p, key, NonceFor(iv, sequence), MakeTls12Aad(sequence, m.typ, m.version, |m.payload|), m.payload)
  }

  function EncryptChaCha12(p: Primitive, key: seq<byte>, iv: Iv, m: Plain, sequence: u64): Record {
    var x := SealChaCha12(p, key, iv, m, sequence);
    Record(m.typ, m.version, x.ciphertext + x.tag)
  }

  function ParseChaCha12(iv: Iv, r: Record, sequence: u64): Option<Sealed> {
    var n := |r.payload|;
    if n < TAG_LEN then None
    else Some(Sealed(
                NonceFor(iv, sequence),
                MakeTls12Aad(sequence, r.typ, r.version, n - TAG_LEN),
                r.payload[..n - TAG_LEN],
                r.payload[n - TAG_LEN..]))
  }

  // ---------------------------------------------------------------- TLS 1.3

  /** The inner plaintext with `pad` zeros after the content type; the encrypters use none. */
  function SealTls13(p: Primitive, key: seq<byte>, iv: Iv, m: Plain, pad: nat, sequence: u64): Sealed {
    Seal(p, key, NonceFor(iv, sequence), MakeTls13Aad(|m.payload| + 1 + pad + TAG_LEN),
         m.payload + [m.typ] + Zeros(pad))
  }

  function EncryptTls13(p: Primitive, key: seq<byte>, iv: Iv, m: Plain, pad: nat, sequence: u64): Record {
    var x := SealTls13(p, key, iv, m, pad, sequence);
    Record(APPLICATION_DATA, TLS12, x.ciphertext + x.tag)
  }

  function ParseTls13(iv: Iv, r: Record, sequence: u64): Option<Sealed> {
    var n := |r.payload|;
    if n < TAG_LEN then None
    else Some(Sealed(
                NonceFor(iv, sequence), MakeTls13Aad(n),
                r.payload[..n - TAG_LEN], r.payload[n - TAG_LEN..]))
  }

  // ---------------------------------------------------------------- decryption

  /** Opens a parsed tuple; a record too short to parse is refused first. */
  function OpenParsed(p: Primitive, key: seq<byte>, parsed: Option<Sealed>): Result<seq<byte>, RecordError> {
    match parsed
    case None => Err(TooShort)
    case Some(x) =>
      match Open(p, key, x)
      case None => Err(TagMismatch)
      case Some(plaintext) => Ok(plaintext)
  }

  function WithHeader(r: Record, outcome: Result<seq<byte>, RecordError>): Result<Plain, RecordError> {
    match outcome
    case Err(e) => Err(e)
    case Ok(plaintext) => Ok(Plain(r.typ, r.version, plaintext))
  }

  function DecryptGcm12(p: Primitive, key: seq<byte>, fixedIv: FixedIv, r: Record, sequence: u64):
    Result<Plain, RecordError>
  {
    WithHeader(r, OpenParsed(p, key, ParseGcm12(fixedIv, r, sequence)))
  }

  function DecryptChaCha12(p: Primitive, key: seq<byte>, iv: Iv, r: Record, sequence: u64):
    Result<Plain, RecordError>
  {
    WithHeader(r, OpenParsed(p, key, ParseChaCha12(iv, r, sequence)))
  }

  function DecryptTls13(p: Primitive, key: seq<byte>, iv: Iv, r: Record, sequence: u64):
    Result<Plain, RecordError>
  {
    match OpenParsed(p, key, ParseTls13(iv, r, sequence))
    case Err(e) => Err(e)
    case Ok(inner) => Unpad(inner)
  }
}
