/** TLS 1.2 ChaCha20-Poly1305: ciphertext || tag(16), assembled in a second output buffer. */
module ChaChaTls12 {
  import opened Bytes
  import opened Aead
  import opened Records
  import opened Buffers

  const KEY_LEN := 32

  class Cipher {
    const primitive: Primitive
    const key: seq<byte>
    const iv: Iv

    constructor (primitive: Primitive, key: seq<byte>, iv: seq<byte>)
      requires |key| == KEY_LEN && |iv| == NONCE_LEN
      ensures this.primitive == primitive && this.key == key && this.iv == iv
    {
      this.primitive, this.key, this.iv := primitive, key, iv;
    }

    function EncryptedPayloadLen(payloadLen: nat): nat {
      payloadLen + TAG_LEN
    }

    method Encrypt(m: OutboundPlainMessage, sequence: u64) returns (r: Record)
      ensures r == EncryptChaCha12(primitive, key, iv, m.Joined(), sequence)
      ensures |r.payload| == EncryptedPayloadLen(m.PayloadLen())
      ensures r.typ == m.typ && r.version == m.version
    {
      var payload := new PrefixedPayload();
      payload.ExtendFromChunks(m.chunks);
      var nonce := NonceFor(iv, sequence);
      var aad := MakeTls12Aad(sequence, m.typ, m.version, m.PayloadLen());
      var plaintext := payload.buf[..m.PayloadLen()];
      assert plaintext == Flatten(m.chunks);
      var encrypted := new byte[m.PayloadLen()];
      var authTag := new byte[TAG_LEN];
      Aead.Encrypt(primitive, key, plaintext, encrypted, nonce, aad, authTag);
      ghost var x := Sealed(nonce, aad, encrypted[..], authTag[..]);
      assert x == SealChaCha12(primitive, key, iv, m.Joined(), sequence);

      var output := Assemble(encrypted[..], authTag[..]);
      r := Record(m.typ, m.version, output);
    }

    /** A fresh buffer for the wire: the plaintext buffer is not reused. */
    method Assemble(encrypted: seq<byte>, authTag: seq<byte>) returns (wire: seq<byte>)
      ensures wire == encrypted + authTag
    {
      var output := new PrefixedPayload();
      output.ExtendFromSlice(encrypted);
      output.ExtendFromSlice(authTag);
      wire := output.buf;
    }

    /** Opens the record in place; see the frame promised by the GCM decrypter. */
    method Decrypt(m: InboundOpaqueMessage, sequence: u64) returns (r: Result<Plain, RecordError>)
      requires m.Valid()
      modifies m, m.buf
      ensures m.Valid()
      ensures r == DecryptChaCha12(primitive, key, iv, old(m.AsRecord()), sequence)
      ensures r.Ok? ==> r.value == Plain(m.typ, m.version, m.Payload())
      ensures r.Ok? ==> m.buf[m.len..] == old(m.buf[..])[m.len..]
      ensures r.Err? ==> m.AsRecord() == old(m.AsRecord()) && m.buf[..] == old(m.buf[..])
    {
      if m.len < TAG_LEN {
        return Err(TooShort);
      }
      var payload := m.buf[..m.len];
      var messageLen := |payload| - TAG_LEN;
      var nonce := NonceFor(iv, sequence);
      var aad := MakeTls12Aad(sequence, m.typ, m.version, messageLen);
      var authTag := payload[messageLen..];
      var ciphertext := payload[..messageLen];
      var plaintext := new byte[messageLen];
      var ok := Aead.Decrypt(primitive, key, ciphertext, plaintext, nonce, aad, authTag);
      if !ok {
        return Err(TagMismatch);
      }
      m.OverwriteFront(plaintext[..]);
      m.Truncate(messageLen);
      var plain := m.IntoPlainMessage();
      r := Ok(plain);
    }
  }
}
