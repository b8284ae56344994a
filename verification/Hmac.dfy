/** HMAC (section 2 of RFC 2104) over the SHA of `Sha`, and the key object of `hmac/mod.rs`
    that computes it through HKDF-Extract. */
module Hmac {
  import opened Bytes
  import opened Sha

  /** The key hashed if longer than a block, then zero-filled to one block. */
  function KeyBlock(core: Core, alg: Algorithm, key: seq<byte>): (k: seq<byte>)
    ensures |k| == BlockLen(alg)
  {
    var k := if |key| > BlockLen(alg) then Hash(core, alg, key) else key;
    k + Zeros(BlockLen(alg) - |k|)
  }

  function Pad(x: byte, n: nat): (p: seq<byte>)
    ensures |p| == n
    ensures forall i :: 0 <= i < n ==> p[i] == x
  {
    seq(n, _ => x)
  }

  function Mac(core: Core, alg: Algorithm, key: seq<byte>, m: seq<byte>): (tag: seq<byte>)
    ensures |tag| == DigestLen(alg)
  {
    var k := KeyBlock(core, alg, key);
    var inner := Hash(core, alg, XorSeq(k, Pad(0x36, |k|)) + m);
    Hash(core, alg, XorSeq(k, Pad(0x5c, |k|)) + inner)
  }

  /** Trailing zeros of a key of at most one block do not matter. */
  lemma MacIgnoresTrailingZeros(core: Core, alg: Algorithm, key: seq<byte>, n: nat, m: seq<byte>)
    requires |key| + n <= BlockLen(alg)
    ensures Mac(core, alg, key + Zeros(n), m) == Mac(core, alg, key, m)
  {
    assert KeyBlock(core, alg, key + Zeros(n)) == KeyBlock(core, alg, key);
  }

  /** Section 2 of RFC 2104 for a key of exactly one block: hash the outer-padded key with the hash of
      the inner-padded key with the message. With the laws for longer and shorter keys, this fixes the tag. */
  lemma MacOfBlockKey(core: Core, alg: Algorithm, key: seq<byte>, m: seq<byte>)
    requires |key| == if alg.Sha256? then 64 else 128
    ensures Mac(core, alg, key, m) ==
            Hash(core, alg, XorSeq(key, Pad(0x5c, |key|)) + Hash(core, alg, XorSeq(key, Pad(0x36, |key|)) + m))
  {
    assert key + Zeros(0) == key;
  }

  /** A longer key is replaced by its hash. */
  lemma MacHashesLongKey(core: Core, alg: Algorithm, key: seq<byte>, m: seq<byte>)
    requires |key| > if alg.Sha256? then 64 else 128
    ensures Mac(core, alg, key, m) == Mac(core, alg, Hash(core, alg, key), m)
  {
    assert KeyBlock(core, alg, key) == KeyBlock(core, alg, Hash(core, alg, key));
  }

  /** HMAC of any key and message, in the literal terms of section 2 of RFC 2104. */
  ghost predicate IsHmac(core: Core, alg: Algorithm, key: seq<byte>, m: seq<byte>, tag: seq<byte>) {
    var n := if alg.Sha256? then 64 else 128;
    var short := if |key| > n then Hash(core, alg, key) else key;
    |short| <= n &&
    var k := short + Zeros(n - |short|);
    tag == Hash(core, alg, XorSeq(k, Pad(0x5c, n)) + Hash(core, alg, XorSeq(k, Pad(0x36, n)) + m))
  }

  lemma MacIsHmac(core: Core, alg: Algorithm, key: seq<byte>, m: seq<byte>)
    ensures IsHmac(core, alg, key, m, Mac(core, alg, key, m))
  {
    var n := if alg.Sha256? then 64 else 128;
    var short := if |key| > n then Hash(core, alg, key) else key;
    assert KeyBlock(core, alg, key) == short + Zeros(n - |short|);
  }

  /** The library's `hkdf_extract` (section 2.2 of RFC 5869): HMAC with the salt as key, an absent
      salt standing for HashLen zeros, written to the caller's buffer. */
  method HkdfExtract(core: Core, alg: Algorithm, salt: Option<seq<byte>>, ikm: seq<byte>, out: array<byte>)
    requires out.Length == DigestLen(alg)
    modifies out
    ensures out[..] == Mac(core, alg, if salt.Some? then salt.value else Zeros(DigestLen(alg)), ikm)
  {
    var key := if salt.Some? then salt.value else Zeros(DigestLen(alg));
    var prk := Mac(core, alg, key, ikm);
    CopyFromSlice(out, 0, prk);
    assert out[..] == out[0..0 + |prk|];
  }

  datatype HmacKey = HmacKey(core: Core, key: seq<byte>, variant: Algorithm) {

    /** The tag of the parts in order: only their concatenation matters, not how it is cut. */
    method SignConcat(first: seq<byte>, middle: seq<seq<byte>>, last: seq<byte>) returns (tag: seq<byte>)
      ensures tag == Mac(core, variant, key, Flatten([first] + middle + [last]))
      ensures IsHmac(core, variant, key, Flatten([first] + middle + [last]), tag)
    {
      var data: seq<byte> := [];
      data := data + first;
      for i := 0 to |middle|
        invariant data == first + Flatten(middle[..i])
      {
        FlattenNext(middle, i);
        data := data + middle[i];
      }
      data := data + last;
      assert middle[..|middle|] == middle;
      FlattenAppend([first] + middle, [last]);
      FlattenAppend([first], middle);
      assert Flatten([first]) == first && Flatten([last]) == last;

      var digest := new byte[DigestLen(variant)](_ => 0);
      HkdfExtract(core, variant, Some(key), data, digest);
      tag := digest[..];
      MacIsHmac(core, variant, key, data);
    }
  }
}
