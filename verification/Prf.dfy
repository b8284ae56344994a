/** `prf.rs`: the TLS 1.2 PRF (section 5 of RFC 5246) as P_hash over label || seed. */
module Prf {
  import opened Bytes
  import opened Sha
  import opened Hmac
  import opened KeyStreams
  import opened KeyStreamLaws

  const MASTER_SECRET_LEN := 48

  /** Writes P_hash(secret, label || seed), as many octets as the output holds. */
  method WcPrf(core: Core, variant: Algorithm, output: array<byte>, secret: seq<byte>, tlsLabel: seq<byte>, seed: seq<byte>)
    modifies output
    ensures output[..] == Generate(core, variant, PHash(secret, tlsLabel + seed), output.Length)
    ensures forall a: seq<seq<byte>>, blocks: seq<seq<byte>>
              | PHashBlocks(MacOf(core, variant), secret, tlsLabel + seed, a, blocks) && output.Length <= |Flatten(blocks)|
              :: output[..] == Flatten(blocks)[..output.Length]
  {
    var combinedSeed: seq<byte> := [];
    combinedSeed := combinedSeed + tlsLabel;
    combinedSeed := combinedSeed + seed;
    assert combinedSeed == tlsLabel + seed;
    PHashInto(core, variant, secret, combinedSeed, output);
    forall a: seq<seq<byte>>, blocks: seq<seq<byte>> |
      PHashBlocks(MacOf(core, variant), secret, combinedSeed, a, blocks) && output.Length <= |Flatten(blocks)|
      ensures output[..] == Flatten(blocks)[..output.Length]
    {
      PHashRecurrence(core, variant, secret, combinedSeed, a, blocks, output.Length);
    }
  }

  /** A failed key exchange is passed on and leaves the output alone. */
  method ForKeyExchange<E>(core: Core, variant: Algorithm, output: array<byte>, kx: Result<seq<byte>, E>,
                           tlsLabel: seq<byte>, seed: seq<byte>) returns (res: Result<(), E>)
    requires output.Length == MASTER_SECRET_LEN
    modifies output
    ensures res.Ok? <==> kx.Ok?
    ensures kx.Ok? ==>
              var a1 := Mac(core, variant, kx.value, tlsLabel + seed);
              var a2 := Mac(core, variant, kx.value, a1);
              output[..] ==
              if variant.Sha384? then Mac(core, variant, kx.value, a1 + (tlsLabel + seed))
              else Mac(core, variant, kx.value, a1 + (tlsLabel + seed))
                   + Mac(core, variant, kx.value, a2 + (tlsLabel + seed))[..16]
    ensures kx.Ok? ==> output[..] == Generate(core, variant, PHash(kx.value, tlsLabel + seed), MASTER_SECRET_LEN)
    ensures kx.Err? ==> res == Err(kx.error) && output[..] == old(output[..])
  {
    if kx.Err? {
      return Err(kx.error);
    }
    WcPrf(core, variant, output, kx.value, tlsLabel, seed);
    PHash48(core, variant, kx.value, tlsLabel + seed);
    res := Ok(());
  }

  /** Two calls whose label and seed concatenate to the same octets agree as far as both go. */
  lemma PrfDependsOnConcatenation(core: Core, variant: Algorithm, secret: seq<byte>,
                                  tlsLabel: seq<byte>, seed: seq<byte>, tlsLabel': seq<byte>, seed': seq<byte>,
                                  m: nat, n: nat)
    requires tlsLabel + seed == tlsLabel' + seed' && m <= n
    ensures Generate(core, variant, PHash(secret, tlsLabel + seed), m)
         == Generate(core, variant, PHash(secret, tlsLabel' + seed'), n)[..m]
  {
    ShorterIsPrefix(core, variant, PHash(secret, tlsLabel + seed), m, n);
  }
}
