/** TLS 1.2 AES-GCM: explicit_nonce(8) || ciphertext || tag(16). The 128- and 256-bit files
    differ only in the key length, so one pair of classes serves both. */
module GcmTls12 {
  import opened Bytes
  import opened Aead
  import opened Records
  import opened Buffers
  import opened WireFormat

  datatype KeyBlockShape = KeyBlockShape(encKeyLen: nat, fixedIvLen: nat, explicitNonceLen: nat)

  function Shape(keyLen: nat): KeyBlockShape {
    KeyBlockShape(keyLen, 4, 8)
  }

  class Encrypter {
    const primitive: Primitive
    const key: seq<byte>
    const iv: Iv

    /** `Tls12AeadAlgorithm::encrypter`: the IV is the implicit part followed by the explicit one. */
    constructor (primitive: Primitive, key: seq<byte>, fixed: seq<byte>, extra: seq<byte>)
      requires |fixed| == Shape(|key|).fixedIvLen && |extra| == Shape(|key|).explicitNonceLen
      ensures this.primitive == primitive && this.key == key
      ensures iv[..FIXED_IV_LEN] == fixed && iv[FIXED_IV_LEN..] == extra
    {
      this.primitive, this.key, this.iv := primitive, key, fixed + extra;
    }

    function EncryptedPayloadLen(payloadLen: nat): nat {
      payloadLen + (NONCE_LEN - 4) + TAG_LEN
    }

    method Encrypt(m: OutboundPlainMessage, sequence: u64) returns (r: Record)
      ensures r == EncryptGcm12(primitive, key, iv, m.Joined(), sequence)
      ensures |r.payload| == EncryptedPayloadLen(m.PayloadLen())
      ensures r.typ == m.typ && r.version == m.version
      ensures ExplicitNonce(r.payload[..8], iv, sequence)
    {
      var payload := new PrefixedPayload();
      var nonce := NonceFor(iv, sequence);
      payload.ExtendFromSlice(nonce[NONCE_LEN - 8..]);
      payload.ExtendFromChunks(m.chunks);

      var aad := MakeTls12Aad(sequence, m.typ, m.version, m.PayloadLen());
      var authTag := new byte[TAG_LEN];
      var start := NONCE_LEN - 4;
      var end := m.PayloadLen() + (NONCE_LEN - 4);
      var plaintext := payload.buf[start..end];
      assert plaintext == Flatten(m.chunks);
      var ciphertext := new byte[|plaintext|];
      Aead.Encrypt(primitive, key, plaintext, ciphertext, nonce, aad, authTag);

      ghost var x := Sealed(nonce, aad, ciphertext[..], authTag[..]);
      assert x == SealGcm12(primitive, key, nonce, m.Joined(), sequence);

      payload.Overwrite(start, ciphertext[..]);
      assert payload.buf == nonce[FIXED_IV_LEN..] + x.ciphertext by {
        assert payload.buf[..start] == nonce[FIXED_IV_LEN..];
        assert payload.buf[start..end] == x.ciphertext;
      }
      payload.ExtendFromSlice(authTag[..]);
      r := Record(m.typ, m.version, payload.buf);
      assert r == EncryptGcm12(primitive, key, iv, m.Joined(), sequence);
      assert ExplicitNonce(r.payload[..8], iv, sequence) by {
        Gcm12ExplicitNonce(primitive, key, iv, m.Joined(), sequence);
      }
    }
  }

  class Decrypter {
    const primitive: Primitive
    const key: seq<byte>
    const implicitIv: FixedIv

    constructor (primitive: Primitive, key: seq<byte>, fixed: seq<byte>)
      requires |fixed| == Shape(|key|).fixedIvLen
      ensures this.primitive == primitive && this.key == key && implicitIv == fixed
    {
      this.primitive, this.key, this.implicitIv := primitive, key, fixed;
    }

    /** Opens the record in place. On success the plaintext lies at the front of the buffer, the
        length is cut to it and every octet behind it is as it was; on failure nothing changed. */
    method Decrypt(m: InboundOpaqueMessage, sequence: u64) returns (r: Result<Plain, RecordError>)
      requires m.Valid()
      modifies m, m.buf
      ensures m.Valid()
      ensures r == DecryptGcm12(primitive, key, implicitIv, old(m.AsRecord()), sequence)
      ensures r.Ok? ==> r.value == Plain(m.typ, m.version, m.Payload())
      ensures r.Ok? ==> m.buf[m.len..] == old(m.buf[..])[m.len..]
      ensures r.Err? ==> m.AsRecord() == old(m.AsRecord()) && m.buf[..] == old(m.buf[..])
    {
      var payloadLen := m.len;
      var explicitNonceLen := NONCE_LEN - 4;
      if payloadLen < explicitNonceLen + TAG_LEN {
        return Err(TooShort);
      }
      var payload := m.buf[..payloadLen];
      var nonce := implicitIv + payload[..NONCE_LEN - 4];
      var authTag := payload[payloadLen - TAG_LEN..];
      var aad := MakeTls12Aad(sequence, m.typ, m.version, payloadLen - TAG_LEN - explicitNonceLen);
      var ciphertext := payload[NONCE_LEN - 4..payloadLen - TAG_LEN];
      var plaintext := new byte[|ciphertext|];
      var ok := Aead.Decrypt(primitive, key, ciphertext, plaintext, nonce, aad, authTag);
      if !ok {
        return Err(TagMismatch);
      }
      m.OverwriteFront(plaintext[..]);
      m.Truncate(plaintext.Length);
      var plain := m.IntoPlainMessage();
      r := Ok(plain);
    }
  }
}
