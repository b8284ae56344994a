/** What is on the wire, octet by octet, in terms of the primitives alone: the laws that fix nonce,
    layouts and refusals without the functions that encrypters and decrypters share. */
module WireFormat {
  import opened Bytes
  import opened Aead
  import opened Records
  import opened RecordTheorems

  // ---------------------------------------------------------------- nonce

  /** Octet k of the 64-bit sequence number left-padded to a nonce. */
  function PaddedSequenceOctet(sequence: u64, k: nat): nat
    requires k < NONCE_LEN
  {
    if k < 4 then 0 else (sequence / Pow256(11 - k)) % 256
  }

  /** Section 5.3 of RFC 8446: every bit of every nonce octet is that of the padded sequence number
      exclusive-or that of the IV. */
  lemma NonceBits(iv: Iv, sequence: u64, k: nat, b: nat)
    requires k < NONCE_LEN && b < 8
    ensures Bit(NonceFor(iv, sequence)[k], b) == (Bit(PaddedSequenceOctet(sequence, k), b) + Bit(iv[k], b)) % 2
  {
    var counter := Zeros(4) + ToBE(sequence, 8);
    if k >= 4 {
      ToBEOctet(sequence, 8, k - 4);
    }
    assert counter[k] == PaddedSequenceOctet(sequence, k);
    XorBitsBit(8, counter[k], iv[k], b);
  }

  /** The eight octets are, bit by bit, the sequence number exclusive-or the end of the IV. */
  predicate ExplicitNonce(explicit: seq<byte>, iv: Iv, sequence: u64) {
    |explicit| == 8 &&
    forall k, b :: 0 <= k < 8 && 0 <= b < 8 ==>
      Bit(explicit[k], b) == (Bit((sequence / Pow256(7 - k)) % 256, b) + Bit(iv[4 + k], b)) % 2
  }

  lemma NonceIsExplicit(iv: Iv, sequence: u64)
    ensures ExplicitNonce(NonceFor(iv, sequence)[4..], iv, sequence)
  {
    var explicit := NonceFor(iv, sequence)[4..];
    forall k, b | 0 <= k < 8 && 0 <= b < 8
      ensures Bit(explicit[k], b) == (Bit((sequence / Pow256(7 - k)) % 256, b) + Bit(iv[4 + k], b)) % 2
    {
      NonceBits(iv, sequence, k + 4, b);
    }
  }

  // ---------------------------------------------------------------- records sent

  /** The octets of `ciphertext` are those of `plaintext` under the keystream of this nonce. */
  predicate Enciphers(p: Primitive, key: seq<byte>, nonce: seq<byte>, plaintext: seq<byte>, ciphertext: seq<byte>) {
    |ciphertext| == |plaintext| &&
    forall i :: 0 <= i < |plaintext| ==> ciphertext[i] == Xor(plaintext[i], p.keystream(key, nonce, i))
  }

  /** Section 3 of RFC 5288: explicit nonce, ciphertext, tag, under the header of the message. */
  lemma Gcm12OnTheWire(p: Primitive, key: seq<byte>, iv: Iv, m: Plain, sequence: u64)
    ensures var r, n, nonce := EncryptGcm12(p, key, iv, m, sequence), |m.payload|, NonceFor(iv, sequence);
            r.typ == m.typ && r.version == m.version && |r.payload| == 8 + n + 16 &&
            r.payload[..8] == nonce[4..] &&
            Enciphers(p, key, nonce, m.payload, r.payload[8..8 + n]) &&
            r.payload[8 + n..] == p.mac(key, nonce, MakeTls12Aad(sequence, m.typ, m.version, n), r.payload[8..8 + n])
  {
    var x := SealGcm12(p, key, NonceFor(iv, sequence), m, sequence);
    var r, n := EncryptGcm12(p, key, iv, m, sequence), |m.payload|;
    assert r.payload[..8] == x.nonce[4..];
    assert r.payload[8..8 + n] == x.ciphertext && r.payload[8 + n..] == x.tag;
  }

  /** The first eight octets sent are the sequence number exclusive-or the end of the IV. */
  lemma Gcm12ExplicitNonce(p: Primitive, key: seq<byte>, iv: Iv, m: Plain, sequence: u64)
    ensures var r := EncryptGcm12(p, key, iv, m, sequence);
            |r.payload| >= 8 && ExplicitNonce(r.payload[..8], iv, sequence)
  {
    Gcm12OnTheWire(p, key, iv, m, sequence);
    NonceIsExplicit(iv, sequence);
  }

  /** Section 2 of RFC 7905: ciphertext and tag, under the header of the message. */
  lemma ChaCha12OnTheWire(p: Primitive, key: seq<byte>, iv: Iv, m: Plain, sequence: u64)
    ensures var r, n, nonce := EncryptChaCha12(p, key, iv, m, sequence), |m.payload|, NonceFor(iv, sequence);
            r.typ == m.typ && r.version == m.version && |r.payload| == n + 16 &&
            Enciphers(p, key, nonce, m.payload, r.payload[..n]) &&
            r.payload[n..] == p.mac(key, nonce, MakeTls12Aad(sequence, m.typ, m.version, n), r.payload[..n])
  {
    var x := SealChaCha12(p, key, iv, m, sequence);
    var r, n := EncryptChaCha12(p, key, iv, m, sequence), |m.payload|;
    assert r.payload[..n] == x.ciphertext && r.payload[n..] == x.tag;
  }

  /** Section 5.2 of RFC 8446: outer type 23 and version 0x0303 whatever the message, then the
      enciphered payload and type, then the tag. */
  lemma Tls13OnTheWire(p: Primitive, key: seq<byte>, iv: Iv, m: Plain, sequence: u64)
    ensures var r, n, nonce := EncryptTls13(p, key, iv, m, 0, sequence), |m.payload| + 1, NonceFor(iv, sequence);
            r.typ == 23 && r.version == 0x0303 && |r.payload| == n + 16 &&
            Enciphers(p, key, nonce, m.payload + [m.typ], r.payload[..n]) &&
            r.payload[n..] == p.mac(key, nonce, MakeTls13Aad(n + 16), r.payload[..n])
  {
    var x := SealTls13(p, key, iv, m, 0, sequence);
    var r, n := EncryptTls13(p, key, iv, m, 0, sequence), |m.payload| + 1;
    assert m.payload + [m.typ] + Zeros(0) == m.payload + [m.typ];
    assert r.payload[..n] == x.ciphertext && r.payload[n..] == x.tag;
  }

  /** What the outer header is for: messages of equal payload length leave with the same header and
      length, whatever their types and versions. */
  lemma Tls13HidesType(p: Primitive, key: seq<byte>, iv: Iv, m: Plain, i: u64, m': Plain, j: u64)
    requires |m.payload| == |m'.payload|
    ensures var r, r' := EncryptTls13(p, key, iv, m, 0, i), EncryptTls13(p, key, iv, m', 0, j);
            r.typ == r'.typ == 23 && r.version == r'.version == 0x0303 && |r.payload| == |r'.payload|
  {
    Tls13OnTheWire(p, key, iv, m, i);
    Tls13OnTheWire(p, key, iv, m', j);
  }

  // ---------------------------------------------------------------- records refused

  predicate Gcm12TagHolds(p: Primitive, key: seq<byte>, fixedIv: FixedIv, r: Record, sequence: u64) {
    var n := |r.payload|;
    n >= 24 &&
    r.payload[n - 16..] == p.mac(key, fixedIv + r.payload[..8],
                                 MakeTls12Aad(sequence, r.typ, r.version, n - 24), r.payload[8..n - 16])
  }

  /** Refusals of a TLS 1.2 GCM decrypter: below 24 octets, or for the tag. */
  lemma Gcm12RefusesIff(p: Primitive, key: seq<byte>, fixedIv: FixedIv, r: Record, sequence: u64)
    ensures var d := DecryptGcm12(p, key, fixedIv, r, sequence);
            (d == Err(TooShort) <==> |r.payload| < 24) &&
            (d == Err(TagMismatch) <==> |r.payload| >= 24 && !Gcm12TagHolds(p, key, fixedIv, r, sequence)) &&
            (d.Ok? <==> Gcm12TagHolds(p, key, fixedIv, r, sequence))
  {
  }

  predicate ChaCha12TagHolds(p: Primitive, key: seq<byte>, iv: Iv, r: Record, sequence: u64) {
    var n := |r.payload|;
    n >= 16 &&
    r.payload[n - 16..] == p.mac(key, NonceFor(iv, sequence),
                                 MakeTls12Aad(sequence, r.typ, r.version, n - 16), r.payload[..n - 16])
  }

  /** Refusals of a TLS 1.2 ChaCha20 decrypter: below 16 octets, or for the tag. */
  lemma ChaCha12RefusesIff(p: Primitive, key: seq<byte>, iv: Iv, r: Record, sequence: u64)
    ensures var d := DecryptChaCha12(p, key, iv, r, sequence);
            (d == Err(TooShort) <==> |r.payload| < 16) &&
            (d == Err(TagMismatch) <==> |r.payload| >= 16 && !ChaCha12TagHolds(p, key, iv, r, sequence)) &&
            (d.Ok? <==> ChaCha12TagHolds(p, key, iv, r, sequence))
  {
  }

  /** The tag of a TLS 1.3 record long enough to have one. */
  predicate Tls13TagHolds(p: Primitive, key: seq<byte>, iv: Iv, payload: seq<byte>, sequence: u64) {
    |payload| >= 16 &&
    payload[|payload| - 16..] == p.mac(key, NonceFor(iv, sequence), MakeTls13Aad(|payload|), payload[..|payload| - 16])
  }

  /** Every octet deciphers to zero. */
  predicate DeciphersToZeros(p: Primitive, key: seq<byte>, nonce: seq<byte>, ciphertext: seq<byte>) {
    forall i :: 0 <= i < |ciphertext| ==> Xor(ciphertext[i], p.keystream(key, nonce, i)) == 0
  }

  /** Refusals of a TLS 1.3 decrypter, in the order they are decided: below 16 octets, for the tag,
      for the size, and for an inner plaintext with no nonzero octet. */
  lemma Tls13RefusesIff(p: Primitive, key: seq<byte>, iv: Iv, r: Record, sequence: u64)
    ensures var d, n := DecryptTls13(p, key, iv, r, sequence), |r.payload|;
            (d == Err(TooShort) <==> n < 16) &&
            (d == Err(TagMismatch) <==> n >= 16 && !Tls13TagHolds(p, key, iv, r.payload, sequence)) &&
            (d == Err(OversizedRecord) <==>
              Tls13TagHolds(p, key, iv, r.payload, sequence) && n - 16 > 0x4001) &&
            (d == Err(IllegalInnerPlaintext) <==>
              Tls13TagHolds(p, key, iv, r.payload, sequence) && n - 16 <= 0x4001 &&
              DeciphersToZeros(p, key, NonceFor(iv, sequence), r.payload[..n - 16]))
  {
    var n := |r.payload|;
    if Tls13TagHolds(p, key, iv, r.payload, sequence) {
      var nonce, ciphertext := NonceFor(iv, sequence), r.payload[..n - 16];
      var inner := Crypt(p, key, nonce, ciphertext);
      assert OpenParsed(p, key, ParseTls13(iv, r, sequence)) == Ok(inner);
      assert forall i :: 0 <= i < |inner| ==> inner[i] == Xor(ciphertext[i], p.keystream(key, nonce, i));
      StripZerosEmptyIff(inner);
    }
  }

  lemma StripZerosEmptyIff(inner: seq<byte>)
    ensures StripZeros(inner) == [] <==> forall i :: 0 <= i < |inner| ==> inner[i] == 0
  {
    var s := StripZeros(inner);
    StripZerosRest(inner);
    if s == [] {
      assert inner == Zeros(|inner|);
    } else {
      assert inner[|s| - 1] == s[|s| - 1];
    }
  }
}
