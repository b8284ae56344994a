/** `hkdf.rs`: extraction with a default salt, HMAC through extraction, and expansion with its
    length limit. */
module Hkdf {
  import opened Bytes
  import opened Sha
  import opened Hmac
  import opened KeyStreams
  import opened KeyStreamLaws

  datatype OutputLengthError = OutputLengthError

  datatype Expander = Expander(core: Core, extractedKey: seq<byte>, hashType: Algorithm, hashLen: nat) {

    predicate Valid() {
      hashLen == DigestLen(hashType)
    }

    /** Succeeds exactly up to 255 blocks, where the block counter still fits one octet, with the
        stream of the flattened info; a refused buffer is left alone. */
    method ExpandSlice(info: seq<seq<byte>>, output: array<byte>) returns (res: Result<(), OutputLengthError>)
      requires Valid()
      modifies output
      ensures res.Ok? <==> output.Length <= 255 * hashLen
      ensures res.Ok? <==> Counter(BlocksFor(hashType, output.Length)) == BlocksFor(hashType, output.Length)
      ensures res.Ok? ==>
                output[..] == Generate(core, hashType, HkdfExpand(extractedKey, Flatten(info)), output.Length)
      ensures res.Ok? ==>
                forall blocks: seq<seq<byte>>
                  | HkdfBlocks(MacOf(core, hashType), extractedKey, Flatten(info), blocks) && output.Length <= |Flatten(blocks)|
                  :: output[..] == Flatten(blocks)[..output.Length]
      ensures res.Err? ==> output[..] == old(output[..])
    {
      LimitIsOneOctet(hashType, output.Length);
      var infoConcat := Flatten(info);
      if output.Length > 255 * hashLen {
        return Err(OutputLengthError);
      }
      var infoOpt := if infoConcat == [] then None else Some(infoConcat);
      ExpandInto(core, hashType, extractedKey, infoOpt, output);
      forall blocks: seq<seq<byte>> |
        HkdfBlocks(MacOf(core, hashType), extractedKey, infoConcat, blocks) && output.Length <= |Flatten(blocks)|
        ensures output[..] == Flatten(blocks)[..output.Length]
      {
        HkdfRecurrence(core, hashType, extractedKey, infoConcat, blocks, output.Length);
      }
      res := Ok(());
    }

    /** The first block, which never meets the limit. */
    method ExpandBlock(info: seq<seq<byte>>) returns (block: seq<byte>)
      requires Valid()
      ensures block == Mac(core, hashType, extractedKey, Flatten(info) + [1])
    {
      var output := new byte[hashLen](_ => 0);
      var res := ExpandSlice(info, output);
      FirstBlock(core, hashType, HkdfExpand(extractedKey, Flatten(info)));
      assert [] + Flatten(info) == Flatten(info);
      assert T(MacOf(core, hashType), HkdfExpand(extractedKey, Flatten(info)), 0) == [];
      block := output[..];
    }
  }

  datatype Provider = Provider(core: Core, variant: Algorithm) {

    method ExtractFromZeroIkm(salt: Option<seq<byte>>) returns (e: Expander)
      ensures e == Extracted(core, variant, salt, Zeros(DigestLen(variant))) && e.Valid()
    {
      var ikm := Zeros(DigestLen(variant));
      e := ExtractFromSecret(salt, ikm);
    }

    method ExtractFromSecret(salt: Option<seq<byte>>, ikm: seq<byte>) returns (e: Expander)
      ensures e == Extracted(core, variant, salt, ikm) && e.Valid()
    {
      var hashLen := DigestLen(variant);
      var extractedKey := new byte[hashLen](_ => 0);
      var zeroSalt := Zeros(hashLen);
      var saltBytes := if salt.Some? then salt.value else zeroSalt;
      HkdfExtract(core, variant, Some(saltBytes), ikm, extractedKey);
      e := Expander(core, extractedKey[..], variant, hashLen);
    }

    /** Takes up a block made earlier: if it is the HMAC of some extraction, this is that extraction's
        expander. */
    method ExpanderForOkm(okm: seq<byte>) returns (e: Expander)
      ensures e == Expander(core, okm, variant, DigestLen(variant)) && e.Valid()
      ensures forall salt: seq<byte>, ikm: seq<byte> :: okm == Mac(core, variant, salt, ikm) ==>
                e == Extracted(core, variant, Some(salt), ikm)
    {
      e := Expander(core, okm, variant, DigestLen(variant));
    }

    /** HKDF-Extract with the key as salt is HMAC. */
    method HmacSign(key: seq<byte>, message: seq<byte>) returns (tag: seq<byte>)
      ensures tag == Mac(core, variant, key, message)
    {
      var digest := new byte[DigestLen(variant)](_ => 0);
      HkdfExtract(core, variant, Some(key), message, digest);
      tag := digest[..];
    }
  }

  /** Section 2.2 of RFC 5869: the pseudorandom key is HMAC of the input under the salt, and an
      absent salt is HashLen zeros. */
  function Extracted(core: Core, alg: Algorithm, salt: Option<seq<byte>>, ikm: seq<byte>): Expander {
    var key := if salt.Some? then salt.value else Zeros(DigestLen(alg));
    Expander(core, Mac(core, alg, key, ikm), alg, DigestLen(alg))
  }

  /** No salt, the empty salt and any all-zero salt of up to one hash block give the same expander,
      and so the same octets from every later expansion. */
  lemma DefaultSaltIdentity(core: Core, alg: Algorithm, n: nat, ikm: seq<byte>)
    requires n <= BlockLen(alg)
    ensures Extracted(core, alg, None, ikm) == Extracted(core, alg, Some([]), ikm)
    ensures Extracted(core, alg, None, ikm) == Extracted(core, alg, Some(Zeros(n)), ikm)
  {
    MacIgnoresTrailingZeros(core, alg, [], DigestLen(alg), ikm);
    MacIgnoresTrailingZeros(core, alg, [], n, ikm);
    assert [] + Zeros(n) == Zeros(n) && [] + Zeros(DigestLen(alg)) == Zeros(DigestLen(alg));
  }

  /** Signing the parts is signing the flattened message: both adapters are the same HMAC. */
  method SignBothWays(core: Core, alg: Algorithm, key: seq<byte>, first: seq<byte>, middle: seq<seq<byte>>, last: seq<byte>)
    returns (tag: seq<byte>, tag': seq<byte>)
    ensures tag == tag' == Mac(core, alg, key, first + Flatten(middle) + last)
  {
    tag := HmacKey(core, key, alg).SignConcat(first, middle, last);
    tag' := Provider(core, alg).HmacSign(key, first + Flatten(middle) + last);
    FlattenAppend([first] + middle, [last]);
    FlattenAppend([first], middle);
    assert Flatten([first]) == first && Flatten([last]) == last;
  }

  /** Signing, then taking the tag up as a block, is extraction: both expanders are the same, and any
      expansion of n octets succeeds or fails on both alike, with the same octets. */
  method ResumeExtraction(core: Core, alg: Algorithm, salt: seq<byte>, ikm: seq<byte>, info: seq<seq<byte>>, n: nat)
    returns (direct: Result<seq<byte>, OutputLengthError>, resumed: Result<seq<byte>, OutputLengthError>)
    ensures direct == resumed
    ensures direct == if n > 255 * DigestLen(alg) then Err(OutputLengthError)
                      else Ok(Generate(core, alg, HkdfExpand(Mac(core, alg, salt, ikm), Flatten(info)), n))
  {
    var provider := Provider(core, alg);
    var extracted := provider.ExtractFromSecret(Some(salt), ikm);
    var tag := provider.HmacSign(salt, ikm);
    var taken := provider.ExpanderForOkm(tag);
    assert extracted == taken;
    direct := ExpandFresh(extracted, info, n);
    resumed := ExpandFresh(taken, info, n);
  }

  /** Expands into a new buffer of n octets. */
  method ExpandFresh(e: Expander, info: seq<seq<byte>>, n: nat) returns (okm: Result<seq<byte>, OutputLengthError>)
    requires e.Valid()
    ensures okm == if n > 255 * e.hashLen then Err(OutputLengthError)
                   else Ok(Generate(e.core, e.hashType, HkdfExpand(e.extractedKey, Flatten(info)), n))
  {
    var output := new byte[n](_ => 0);
    var res := e.ExpandSlice(info, output);
    okm := if res.Ok? then Ok(output[..]) else Err(OutputLengthError);
  }
}
