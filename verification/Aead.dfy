/** Authenticated encryption as wolfCrypt's GCM and ChaCha20-Poly1305 offer it: a stream
    cipher with a tag over the nonce, the additional data and the ciphertext. The keystream
    and the tag function are parameters; `Seal` and `Open` are built from them. */
module Aead {
  import opened Bytes

  const TAG_LEN := 16

  type Tag = t: seq<byte> | |t| == TAG_LEN witness Zeros(16)

  /** keystream(key, nonce, i) is the i-th keystream octet;
      mac(key, nonce, aad, ciphertext) is the authentication tag. */
  datatype Primitive = Primitive(
    keystream: (seq<byte>, seq<byte>, nat) -> byte,
    mac: (seq<byte>, seq<byte>, seq<byte>, seq<byte>) -> Tag)

  /** What one AEAD call presents to its receiver. */
  datatype Sealed = Sealed(nonce: seq<byte>, aad: seq<byte>, ciphertext: seq<byte>, tag: seq<byte>)

  function Keystream(p: Primitive, key: seq<byte>, nonce: seq<byte>, n: nat): (k: seq<byte>)
    ensures |k| == n
  {
    seq<byte>(n, i requires 0 <= i < n => p.keystream(key, nonce, i))
  }

  /** The stream cipher is its own inverse: the same function enciphers and deciphers. */
  function Crypt(p: Primitive, key: seq<byte>, nonce: seq<byte>, data: seq<byte>): (c: seq<byte>)
    ensures |c| == |data|
  {
    XorSeq(data, Keystream(p, key, nonce, |data|))
  }

  function Seal(p: Primitive, key: seq<byte>, nonce: seq<byte>, aad: seq<byte>, plaintext: seq<byte>): (x: Sealed)
    ensures |x.ciphertext| == |plaintext| && |x.tag| == TAG_LEN
    ensures x.nonce == nonce && x.aad == aad
  {
    var ciphertext := Crypt(p, key, nonce, plaintext);
    Sealed(nonce, aad, ciphertext, p.mac(key, nonce, aad, ciphertext))
  }

  /** The sealing, octet by octet: each ciphertext octet is the plaintext octet under the keystream
      octet of its place, and the tag is over nonce, additional data and ciphertext. */
  lemma SealOctets(p: Primitive, key: seq<byte>, nonce: seq<byte>, aad: seq<byte>, plaintext: seq<byte>, i: nat, b: nat)
    requires i < |plaintext| && b < 8
    ensures var x := Seal(p, key, nonce, aad, plaintext);
            |x.ciphertext| == |plaintext| &&
            Bit(x.ciphertext[i], b) == (Bit(plaintext[i], b) + Bit(p.keystream(key, nonce, i), b)) % 2 &&
            x.tag == p.mac(key, nonce, aad, x.ciphertext)
  {
    XorBitsBit(8, plaintext[i], p.keystream(key, nonce, i), b);
  }

  function Open(p: Primitive, key: seq<byte>, x: Sealed): Option<seq<byte>> {
    if x.tag == p.mac(key, x.nonce, x.aad, x.ciphertext)
    then Some(Crypt(p, key, x.nonce, x.ciphertext))
    else None
  }

  /** Opening yields a plaintext exactly when the presented tuple is the sealing of it. */
  lemma OpenIffSealed(p: Primitive, key: seq<byte>, x: Sealed, plaintext: seq<byte>)
    ensures Open(p, key, x) == Some(plaintext) <==> x == Seal(p, key, x.nonce, x.aad, plaintext)
  {
    XorSeqCancels(plaintext, Keystream(p, key, x.nonce, |plaintext|));
    XorSeqCancels(x.ciphertext, Keystream(p, key, x.nonce, |x.ciphertext|));
  }

  /** The library's encrypt call: fills the caller's ciphertext and tag buffers. */
  method Encrypt(p: Primitive, key: seq<byte>, plaintext: seq<byte>, ciphertext: array<byte>,
                 nonce: seq<byte>, aad: seq<byte>, tag: array<byte>)
    requires ciphertext.Length == |plaintext| && tag.Length == TAG_LEN && ciphertext != tag
    modifies ciphertext, tag
    ensures Sealed(nonce, aad, ciphertext[..], tag[..]) == Seal(p, key, nonce, aad, plaintext)
    ensures forall i :: 0 <= i < |plaintext| ==> ciphertext[i] == Xor(plaintext[i], p.keystream(key, nonce, i))
    ensures tag[..] == p.mac(key, nonce, aad, ciphertext[..])
  {
    ApplyKeystream(p, key, plaintext, ciphertext, nonce);
    var t := p.mac(key, nonce, aad, ciphertext[..]);
    for i := 0 to TAG_LEN
      invariant ciphertext[..] == Crypt(p, key, nonce, plaintext)
      invariant forall j :: 0 <= j < i ==> tag[j] == t[j]
    {
      tag[i] := t[i];
    }
    assert tag[..] == t;
  }

  /** The library's decrypt call: compares the tag first, then fills the caller's plaintext buffer. */
  method Decrypt(p: Primitive, key: seq<byte>, ciphertext: seq<byte>, plaintext: array<byte>,
                 nonce: seq<byte>, aad: seq<byte>, tag: seq<byte>) returns (ok: bool)
    requires plaintext.Length == |ciphertext|
    modifies plaintext
    ensures Open(p, key, Sealed(nonce, aad, ciphertext, tag)) == if ok then Some(plaintext[..]) else None
  {
    ok := tag == p.mac(key, nonce, aad, ciphertext);
    if ok {
      ApplyKeystream(p, key, ciphertext, plaintext, nonce);
    }
  }

  method ApplyKeystream(p: Primitive, key: seq<byte>, input: seq<byte>, output: array<byte>, nonce: seq<byte>)
    requires output.Length == |input|
    modifies output
    ensures output[..] == Crypt(p, key, nonce, input)
  {
    for i := 0 to |input|
      invariant forall j :: 0 <= j < i ==> output[j] == Xor(input[j], p.keystream(key, nonce, j))
    {
      output[i] := Xor(input[i], p.keystream(key, nonce, i));
    }
  }
}
