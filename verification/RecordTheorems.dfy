/** What the record layouts guarantee, for every key, IV, sequence number and primitive. */
module RecordTheorems {
  import opened Bytes
  import opened Aead
  import opened Records

  // ---------------------------------------------------------------- nonces and additional data

  /** Under one IV, two nonces coincide exactly when their sequence numbers do; the first four
      octets are always those of the IV, so already the explicit eight differ. */
  lemma NonceInjective(iv: Iv, a: u64, b: u64)
    ensures NonceFor(iv, a)[..FIXED_IV_LEN] == iv[..FIXED_IV_LEN]
    ensures NonceFor(iv, a)[FIXED_IV_LEN..] == NonceFor(iv, b)[FIXED_IV_LEN..] <==> a == b
    ensures NonceFor(iv, a) == NonceFor(iv, b) <==> a == b
  {
    NonceParts(iv, a);
    NonceParts(iv, b);
    if NonceFor(iv, a)[FIXED_IV_LEN..] == NonceFor(iv, b)[FIXED_IV_LEN..] {
      Pow256Values();
      ToBEInjective(a, b, 8);
    }
  }

  /** The fixed part of a nonce is that of the IV; the explicit part gives the sequence number back. */
  lemma NonceParts(iv: Iv, sequence: u64)
    ensures NonceFor(iv, sequence)[..FIXED_IV_LEN] == iv[..FIXED_IV_LEN]
    ensures XorSeq(NonceFor(iv, sequence)[FIXED_IV_LEN..], iv[FIXED_IV_LEN..]) == ToBE(sequence, 8)
  {
    var counter := Zeros(4) + ToBE(sequence, 8);
    var nonce := NonceFor(iv, sequence);
    forall i | 0 <= i < FIXED_IV_LEN ensures nonce[i] == iv[i] {
      XorCancels(iv[i], 0);
    }
    XorSeqCancels(counter, iv);
    forall i | 0 <= i < 8
      ensures XorSeq(nonce[FIXED_IV_LEN..], iv[FIXED_IV_LEN..])[i] == ToBE(sequence, 8)[i]
    {
      assert XorSeq(nonce, iv)[i + 4] == counter[i + 4];
    }
  }

  /** Section 6.2.3.3 of RFC 5246, read back field by field. */
  lemma Tls12AadFields(sequence: u64, typ: byte, version: u16, n: nat)
    ensures var aad := MakeTls12Aad(sequence, typ, version, n);
            |aad| == 13 && FromBE(aad[..8]) == sequence && aad[8] == typ &&
            FromBE(aad[9..11]) == version && FromBE(aad[11..]) == n % 0x1_0000
  {
    var aad := MakeTls12Aad(sequence, typ, version, n);
    Pow256Values();
    ToBE2Truncates(n);
    assert aad[..8] == ToBE(sequence, 8) && aad[9..11] == ToBE(version, 2) && aad[11..] == ToBE(n, 2);
    FromToBE(sequence, 8);
    FromToBE(version, 2);
    FromToBE(n % 0x1_0000, 2);
  }

  /** Section 5.2 of RFC 8446, read back field by field: no sequence number in it. */
  lemma Tls13AadFields(n: nat)
    ensures var aad := MakeTls13Aad(n);
            |aad| == 5 && aad[0] == 23 && FromBE(aad[1..3]) == 0x0303 &&
            FromBE(aad[3..]) == n % 0x1_0000
  {
    var aad := MakeTls13Aad(n);
    Pow256Values();
    ToBE2Truncates(n);
    assert aad[1..3] == ToBE(TLS12, 2) && aad[3..] == ToBE(n, 2);
    FromToBE(TLS12, 2);
    FromToBE(n % 0x1_0000, 2);
  }

  /** TLS 1.2 additional data determines position, type and version, and the length modulo 2^16. */
  lemma Tls12AadInjective(s1: u64, t1: byte, v1: u16, n1: nat, s2: u64, t2: byte, v2: u16, n2: nat)
    ensures MakeTls12Aad(s1, t1, v1, n1) == MakeTls12Aad(s2, t2, v2, n2)
       <==> s1 == s2 && t1 == t2 && v1 == v2 && n1 % 0x1_0000 == n2 % 0x1_0000
  {
    Tls12AadFields(s1, t1, v1, n1);
    Tls12AadFields(s2, t2, v2, n2);
    ToBE2Truncates(n1);
    ToBE2Truncates(n2);
  }

  lemma ToBE2Truncates(n: nat)
    ensures ToBE(n, 2) == ToBE(n % 0x1_0000, 2)
  {
    var m, q := n % 0x1_0000, n / 0x1_0000;
    assert n == 0x1_0000 * q + m;
    assert n / 256 == 256 * q + m / 256 && n % 256 == m % 256;
    assert (n / 256) % 256 == (m / 256) % 256;
    assert ToBE(n / 256, 1) == ToBE(m / 256, 1) by {
      assert ToBE(n / 256, 1) == [] + [(n / 256) % 256];
      assert ToBE(m / 256, 1) == [] + [(m / 256) % 256];
    }
  }

  // ---------------------------------------------------------------- inner plaintext padding

  /** Removing the padding gives payload and type exactly of the inner plaintexts that end in
      that nonzero type followed by zeros, and only up to the size limit. */
  lemma UnpadIff(inner: seq<byte>, m: Plain)
    ensures Unpad(inner) == Ok(m) <==>
            m.version == 0x0304 && m.typ != 0 && |m.payload| < |inner| <= 0x4001 &&
            inner == m.payload + [m.typ] + Zeros(|inner| - |m.payload| - 1)
  {
    var s := StripZeros(inner);
    StripZerosRest(inner);
    if s != [] {
      assert s == s[..|s| - 1] + [s[|s| - 1]];
    }
    if m.typ != 0 && |m.payload| < |inner| &&
       inner == m.payload + [m.typ] + Zeros(|inner| - |m.payload| - 1) {
      StripZerosOf(m.payload + [m.typ], |inner| - |m.payload| - 1);
      assert s == m.payload + [m.typ];
    }
  }

  lemma {:induction false} StripZerosRest(inner: seq<byte>)
    ensures inner == StripZeros(inner) + Zeros(|inner| - |StripZeros(inner)|)
  {
    if inner != [] && inner[|inner| - 1] == 0 {
      StripZerosRest(inner[..|inner| - 1]);
    }
  }

  lemma {:induction false} StripZerosOf(s: seq<byte>, pad: nat)
    requires s != [] && s[|s| - 1] != 0
    ensures StripZeros(s + Zeros(pad)) == s
  {
    if pad == 0 {
      assert s + Zeros(0) == s;
    } else {
      var t := s + Zeros(pad);
      assert t[..|t| - 1] == s + Zeros(pad - 1);
      StripZerosOf(s, pad - 1);
    }
  }

  // ---------------------------------------------------------------- exact acceptance

  /** A TLS 1.2 GCM decrypter delivers m exactly for the records that seal m at this position
      under the fixed IV it holds, whatever explicit nonce the wire carries. */
  lemma Gcm12AcceptsIff(p: Primitive, key: seq<byte>, fixedIv: FixedIv, r: Record, sequence: u64, m: Plain)
    ensures DecryptGcm12(p, key, fixedIv, r, sequence) == Ok(m) <==>
            |r.payload| >= EXPLICIT_NONCE_LEN &&
            r == WireGcm12(m, SealGcm12(p, key, fixedIv + r.payload[..EXPLICIT_NONCE_LEN], m, sequence))
  {
    if |r.payload| >= EXPLICIT_NONCE_LEN {
      var sent := SealGcm12(p, key, fixedIv + r.payload[..EXPLICIT_NONCE_LEN], m, sequence);
      var w := WireGcm12(m, sent);
      assert sent.nonce[FIXED_IV_LEN..] == r.payload[..EXPLICIT_NONCE_LEN];
      var n := |r.payload|;
      if r == w {
        assert n == EXPLICIT_NONCE_LEN + |m.payload| + TAG_LEN;
        assert r.payload[EXPLICIT_NONCE_LEN..n - TAG_LEN] == sent.ciphertext;
        assert r.payload[n - TAG_LEN..] == sent.tag;
      }
      if n >= EXPLICIT_NONCE_LEN + TAG_LEN {
        var x := ParseGcm12(fixedIv, r, sequence).value;
        OpenIffSealed(p, key, x, m.payload);
        assert r.payload == r.payload[..EXPLICIT_NONCE_LEN] + x.ciphertext + x.tag;
      }
    }
  }

  /** A TLS 1.2 ChaCha20 decrypter delivers m from exactly one record: the one sent at this position. */
  lemma ChaCha12AcceptsIff(p: Primitive, key: seq<byte>, iv: Iv, r: Record, sequence: u64, m: Plain)
    ensures DecryptChaCha12(p, key, iv, r, sequence) == Ok(m) <==> r == EncryptChaCha12(p, key, iv, m, sequence)
  {
    var sent := SealChaCha12(p, key, iv, m, sequence);
    var n := |r.payload|;
    if r == EncryptChaCha12(p, key, iv, m, sequence) {
      assert r.payload[..n - TAG_LEN] == sent.ciphertext;
      assert r.payload[n - TAG_LEN..] == sent.tag;
    }
    if n >= TAG_LEN {
      var x := ParseChaCha12(iv, r, sequence).value;
      OpenIffSealed(p, key, x, m.payload);
      assert r.payload == x.ciphertext + x.tag;
    }
  }

  /** The payload seals m, a message of nonzero type, with some padding within the size limit. */
  predicate SealsTls13(p: Primitive, key: seq<byte>, iv: Iv, payload: seq<byte>, sequence: u64, m: Plain) {
    m.version == TLS13 && m.typ != 0 &&
    var pad := |payload| - TAG_LEN - 1 - |m.payload|;
    0 <= pad <= MAX_FRAGMENT_LEN - |m.payload| &&
    payload == EncryptTls13(p, key, iv, m, pad, sequence).payload
  }

  /** A TLS 1.3 decrypter delivers m exactly from the payloads that seal m at this position, with
      any padding; the outer type and version are ignored. */
  lemma Tls13AcceptsIff(p: Primitive, key: seq<byte>, iv: Iv, r: Record, sequence: u64, m: Plain)
    ensures DecryptTls13(p, key, iv, r, sequence) == Ok(m) <==> SealsTls13(p, key, iv, r.payload, sequence, m)
  {
    if DecryptTls13(p, key, iv, r, sequence) == Ok(m) {
      Tls13AcceptedIsSealed(p, key, iv, r, sequence, m);
    }
    if SealsTls13(p, key, iv, r.payload, sequence, m) {
      Tls13SealedIsAccepted(p, key, iv, r, sequence, m);
    }
  }

  lemma Tls13AcceptedIsSealed(p: Primitive, key: seq<byte>, iv: Iv, r: Record, sequence: u64, m: Plain)
    requires DecryptTls13(p, key, iv, r, sequence) == Ok(m)
    ensures SealsTls13(p, key, iv, r.payload, sequence, m)
  {
    var inner := OpenParsed(p, key, ParseTls13(iv, r, sequence)).value;
    assert |inner| == |r.payload| - TAG_LEN;
    UnpadIff(inner, m);
    Tls13OpensIff(p, key, iv, r, sequence, m, |inner| - |m.payload| - 1);
  }

  lemma Tls13SealedIsAccepted(p: Primitive, key: seq<byte>, iv: Iv, r: Record, sequence: u64, m: Plain)
    requires SealsTls13(p, key, iv, r.payload, sequence, m)
    ensures DecryptTls13(p, key, iv, r, sequence) == Ok(m)
  {
    var pad := |r.payload| - TAG_LEN - 1 - |m.payload|;
    Tls13OpensIff(p, key, iv, r, sequence, m, pad);
    UnpadIff(m.payload + [m.typ] + Zeros(pad), m);
  }

  /** A payload opens to the inner plaintext of m with this padding exactly if it is its sealing. */
  lemma Tls13OpensIff(p: Primitive, key: seq<byte>, iv: Iv, r: Record, sequence: u64, m: Plain, pad: nat)
    requires |r.payload| == |m.payload| + 1 + pad + TAG_LEN
    ensures OpenParsed(p, key, ParseTls13(iv, r, sequence)) == Ok(m.payload + [m.typ] + Zeros(pad)) <==>
            r.payload == EncryptTls13(p, key, iv, m, pad, sequence).payload
  {
    var x := ParseTls13(iv, r, sequence).value;
    var sent := SealTls13(p, key, iv, m, pad, sequence);
    OpenIffSealed(p, key, x, m.payload + [m.typ] + Zeros(pad));
    SplitTag(r.payload, sent.ciphertext, sent.tag);
  }

  lemma SplitTag(payload: seq<byte>, ciphertext: seq<byte>, tag: seq<byte>)
    requires |payload| == |ciphertext| + |tag|
    ensures payload == ciphertext + tag <==>
            payload[..|ciphertext|] == ciphertext && payload[|ciphertext|..] == tag
  {
    assert payload == payload[..|ciphertext|] + payload[|ciphertext|..];
  }

  // ---------------------------------------------------------------- round trips

  lemma Gcm12RoundTrip(p: Primitive, key: seq<byte>, iv: Iv, m: Plain, sequence: u64)
    ensures DecryptGcm12(p, key, iv[..FIXED_IV_LEN], EncryptGcm12(p, key, iv, m, sequence), sequence) == Ok(m)
  {
    var r := EncryptGcm12(p, key, iv, m, sequence);
    var nonce := NonceFor(iv, sequence);
    NonceInjective(iv, sequence, sequence);
    assert iv[..FIXED_IV_LEN] + r.payload[..EXPLICIT_NONCE_LEN] == nonce;
    Gcm12AcceptsIff(p, key, iv[..FIXED_IV_LEN], r, sequence, m);
  }

  /** With any padding, a TLS 1.3 record comes back as the payload and type sent exactly when the
      type is nonzero and payload and padding together stay within the fragment limit. */
  lemma Tls13RoundTripIff(p: Primitive, key: seq<byte>, iv: Iv, m: Plain, pad: nat, sequence: u64)
    ensures DecryptTls13(p, key, iv, EncryptTls13(p, key, iv, m, pad, sequence), sequence)
            == Ok(m.(version := TLS13))
       <==> m.typ != 0 && |m.payload| + pad <= MAX_FRAGMENT_LEN
  {
    Tls13OpensIff(p, key, iv, EncryptTls13(p, key, iv, m, pad, sequence), sequence, m, pad);
    UnpadIff(m.payload + [m.typ] + Zeros(pad), m.(version := TLS13));
  }

  /** A zero content type is lost: an empty message of type 0 is refused, and one whose payload ends
      in a nonzero octet gives that octet up as its type. */
  lemma Tls13ZeroTypeFails(p: Primitive, key: seq<byte>, iv: Iv, sequence: u64)
    ensures DecryptTls13(p, key, iv, EncryptTls13(p, key, iv, Plain(0, TLS12, []), 0, sequence), sequence)
            == Err(IllegalInnerPlaintext)
    ensures DecryptTls13(p, key, iv, EncryptTls13(p, key, iv, Plain(0, TLS12, [7]), 0, sequence), sequence)
            == Ok(Plain(7, TLS13, []))
  {
    EmptyZeroTypeRefused(p, key, iv, sequence);
    ZeroTypeTakesLastOctet(p, key, iv, sequence);
  }

  lemma EmptyZeroTypeRefused(p: Primitive, key: seq<byte>, iv: Iv, sequence: u64)
    ensures DecryptTls13(p, key, iv, EncryptTls13(p, key, iv, Plain(0, TLS12, []), 0, sequence), sequence)
            == Err(IllegalInnerPlaintext)
  {
    var m := Plain(0, TLS12, []);
    Tls13OpensIff(p, key, iv, EncryptTls13(p, key, iv, m, 0, sequence), sequence, m, 0);
    assert m.payload + [m.typ] + Zeros(0) == [0];
    assert StripZeros([0]) == [];
  }

  lemma ZeroTypeTakesLastOctet(p: Primitive, key: seq<byte>, iv: Iv, sequence: u64)
    ensures DecryptTls13(p, key, iv, EncryptTls13(p, key, iv, Plain(0, TLS12, [7]), 0, sequence), sequence)
            == Ok(Plain(7, TLS13, []))
  {
    var m := Plain(0, TLS12, [7]);
    Tls13OpensIff(p, key, iv, EncryptTls13(p, key, iv, m, 0, sequence), sequence, m, 0);
    var inner := m.payload + [m.typ] + Zeros(0);
    assert inner == [] + [7] + Zeros(1);
    UnpadIff(inner, Plain(7, TLS13, []));
  }
}
