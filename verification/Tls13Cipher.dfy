/** TLS 1.3, any of the three suites: the content type moves inside the encryption, and the
    receiver strips padding from the end of what it opened. */
module Tls13Cipher {
  import opened Bytes
  import opened Aead
  import opened Records
  import opened Buffers

  class Cipher {
    const primitive: Primitive
    const key: seq<byte>
    const iv: Iv

    constructor (primitive: Primitive, key: seq<byte>, iv: Iv)
      ensures this.primitive == primitive && this.key == key && this.iv == iv
    {
      this.primitive, this.key, this.iv := primitive, key, iv;
    }

    function EncryptedPayloadLen(payloadLen: nat): nat {
      payloadLen + 1 + TAG_LEN
    }

    method Encrypt(m: OutboundPlainMessage, sequence: u64) returns (r: Record)
      ensures r == EncryptTls13(primitive, key, iv, m.Joined(), 0, sequence)
      ensures |r.payload| == EncryptedPayloadLen(m.PayloadLen())
      ensures r.typ == 23 && r.version == 0x0303
    {
      var payloadLen := m.PayloadLen();
      var totalLen := EncryptedPayloadLen(payloadLen);
      var payload := new PrefixedPayload();
      payload.ExtendFromChunks(m.chunks);
      payload.ExtendFromSlice([m.typ]);

      var nonce := NonceFor(iv, sequence);
      var aad := MakeTls13Aad(totalLen);
      var authTag := new byte[TAG_LEN];
      var plaintext := payload.buf[..payloadLen + 1];
      assert plaintext == m.Joined().payload + [m.typ] + Zeros(0);
      var ciphertext := new byte[|plaintext|];
      Aead.Encrypt(primitive, key, plaintext, ciphertext, nonce, aad, authTag);
      ghost var x := Sealed(nonce, aad, ciphertext[..], authTag[..]);
      assert x == SealTls13(primitive, key, iv, m.Joined(), 0, sequence);

      payload.Overwrite(0, ciphertext[..]);
      assert payload.buf == x.ciphertext;
      payload.ExtendFromSlice(authTag[..]);
      r := Record(APPLICATION_DATA, TLS12, payload.buf);
    }

    /** Opens the record in place and strips it. Octets behind the ciphertext are never touched;
        a record that is too short or does not verify is left exactly as it was. */
    method Decrypt(m: InboundOpaqueMessage, sequence: u64) returns (r: Result<Plain, RecordError>)
      requires m.Valid()
      modifies m, m.buf
      ensures m.Valid()
      ensures r == DecryptTls13(primitive, key, iv, old(m.AsRecord()), sequence)
      ensures r.Ok? ==> r.value == Plain(m.typ, m.version, m.Payload())
      ensures old(m.len) >= TAG_LEN ==>
                m.buf[old(m.len) - TAG_LEN..] == old(m.buf[..])[old(m.len) - TAG_LEN..]
      ensures r == Err(TooShort) || r == Err(TagMismatch) ==>
                m.AsRecord() == old(m.AsRecord()) && m.buf[..] == old(m.buf[..])
    {
      var opening := OpenInPlace(m, sequence);
      if opening.Err? {
        return Err(opening.error);
      }
      r := m.IntoTls13UnpaddedMessage();
    }

    /** Everything up to the padding: the inner plaintext lies where the ciphertext was. */
    method OpenInPlace(m: InboundOpaqueMessage, sequence: u64) returns (r: Result<(), RecordError>)
      requires m.Valid()
      modifies m`len, m.buf
      ensures m.Valid()
      ensures OpenParsed(primitive, key, ParseTls13(iv, old(m.AsRecord()), sequence))
              == if r.Ok? then Ok(m.Payload()) else Err(r.error)
      ensures r.Ok? ==> m.len == old(m.len) - TAG_LEN && m.buf[m.len..] == old(m.buf[..])[m.len..]
      ensures r.Err? ==> m.len == old(m.len) && m.buf[..] == old(m.buf[..])
    {
      if m.len < TAG_LEN {
        return Err(TooShort);
      }
      var payload := m.buf[..m.len];
      var nonce := NonceFor(iv, sequence);
      var aad := MakeTls13Aad(|payload|);
      var messageLen := |payload| - TAG_LEN;
      var authTag := payload[messageLen..];
      var ciphertext := payload[..messageLen];
      var plaintext := new byte[messageLen];
      var ok := Aead.Decrypt(primitive, key, ciphertext, plaintext, nonce, aad, authTag);
      if !ok {
        return Err(TagMismatch);
      }
      m.OverwriteFront(plaintext[..]);
      m.Truncate(messageLen);
      r := Ok(());
    }
  }
}
