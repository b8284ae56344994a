/** What HKDF-Expand and P_hash output, by the recurrences of section 2.3 of RFC 5869 and section 5 of
    RFC 5246 on the octets themselves. */
module KeyStreamLaws {
  import opened Bytes
  import opened Sha
  import opened Hmac
  import opened KeyStreams

  /** The block before block i, empty before the first. */
  function Before(blocks: seq<seq<byte>>, i: nat): seq<byte>
    requires i <= |blocks|
  {
    if i == 0 then [] else blocks[i - 1]
  }

  /** Section 2.3 of RFC 5869: blocks of at most 255, each the tag of the one before it, the info and the
      number of the block in one octet. */
  ghost predicate HkdfBlocks(mac: MacFunction, prk: seq<byte>, info: seq<byte>, blocks: seq<seq<byte>>) {
    |blocks| <= 255 && forall i :: 0 <= i < |blocks| ==> HkdfBlockAt(mac, prk, info, blocks, i)
  }

  ghost predicate HkdfBlockAt(mac: MacFunction, prk: seq<byte>, info: seq<byte>, blocks: seq<seq<byte>>, i: nat)
    requires i < |blocks| <= 255
  {
    blocks[i] == mac(prk, Before(blocks, i) + info + [i + 1])
  }

  /** Section 5 of RFC 5246: with a[0] the seed and each a[i + 1] HMAC of a[i], block i is HMAC of
      a[i + 1] followed by the seed. */
  ghost predicate PHashBlocks(mac: MacFunction, secret: seq<byte>, seed: seq<byte>,
                              a: seq<seq<byte>>, blocks: seq<seq<byte>>) {
    |a| == |blocks| + 1 && a[0] == seed &&
    forall i :: 0 <= i < |blocks| ==> PHashBlockAt(mac, secret, seed, a, blocks, i)
  }

  ghost predicate PHashBlockAt(mac: MacFunction, secret: seq<byte>, seed: seq<byte>,
                               a: seq<seq<byte>>, blocks: seq<seq<byte>>, i: nat)
    requires |a| == |blocks| + 1 && i < |blocks|
  {
    a[i + 1] == mac(secret, a[i]) && blocks[i] == mac(secret, a[i + 1] + seed)
  }

  /** HKDF output is the beginning of any such blocks that cover it. */
  lemma HkdfRecurrence(core: Core, alg: Algorithm, prk: seq<byte>, info: seq<byte>, blocks: seq<seq<byte>>, n: nat)
    requires HkdfBlocks(MacOf(core, alg), prk, info, blocks) && n <= |Flatten(blocks)|
    ensures Generate(core, alg, HkdfExpand(prk, info), n) == Flatten(blocks)[..n]
  {
    HkdfBlocksAreStream(MacOf(core, alg), prk, info, blocks);
    GenerateFrom(core, alg, HkdfExpand(prk, info), n, |blocks|);
  }

  lemma HkdfBlocksAreStream(mac: MacFunction, prk: seq<byte>, info: seq<byte>, blocks: seq<seq<byte>>)
    requires HkdfBlocks(mac, prk, info, blocks)
    ensures Stream(BlocksOf(mac, HkdfExpand(prk, info)), |blocks|) == Flatten(blocks)
  {
    var g := HkdfExpand(prk, info);
    forall i | 0 <= i < |blocks| ensures BlockIsT(mac, g, blocks, i) {
      HkdfBlockIsT(mac, prk, info, blocks, i);
    }
    StreamIsFlatten(mac, g, blocks, |blocks|);
    assert blocks[..|blocks|] == blocks;
  }

  lemma {:induction false} HkdfBlockIsT(mac: MacFunction, prk: seq<byte>, info: seq<byte>,
                                        blocks: seq<seq<byte>>, i: nat)
    requires HkdfBlocks(mac, prk, info, blocks) && i < |blocks|
    ensures blocks[i] == T(mac, HkdfExpand(prk, info), i + 1)
  {
    if i > 0 {
      HkdfBlockIsT(mac, prk, info, blocks, i - 1);
    }
    assert HkdfBlockAt(mac, prk, info, blocks, i);
    HkdfTNext(mac, prk, info, i, Before(blocks, i));
  }

  lemma HkdfTNext(mac: MacFunction, prk: seq<byte>, info: seq<byte>, i: nat, t: seq<byte>)
    requires i < 255 && t == T(mac, HkdfExpand(prk, info), i)
    ensures T(mac, HkdfExpand(prk, info), i + 1) == mac(prk, t + info + [i + 1])
  {
    assert Counter(i + 1) == i + 1;
  }

  /** P_hash output is the beginning of any such blocks that cover it. */
  lemma PHashRecurrence(core: Core, alg: Algorithm, secret: seq<byte>, seed: seq<byte>,
                        a: seq<seq<byte>>, blocks: seq<seq<byte>>, n: nat)
    requires PHashBlocks(MacOf(core, alg), secret, seed, a, blocks) && n <= |Flatten(blocks)|
    ensures Generate(core, alg, PHash(secret, seed), n) == Flatten(blocks)[..n]
  {
    PHashBlocksAreStream(MacOf(core, alg), secret, seed, a, blocks);
    GenerateFrom(core, alg, PHash(secret, seed), n, |blocks|);
  }

  lemma PHashBlocksAreStream(mac: MacFunction, secret: seq<byte>, seed: seq<byte>,
                             a: seq<seq<byte>>, blocks: seq<seq<byte>>)
    requires PHashBlocks(mac, secret, seed, a, blocks)
    ensures Stream(BlocksOf(mac, PHash(secret, seed)), |blocks|) == Flatten(blocks)
  {
    var g := PHash(secret, seed);
    forall i | 0 <= i < |blocks| ensures BlockIsT(mac, g, blocks, i) {
      assert PHashBlockAt(mac, secret, seed, a, blocks, i);
      PHashChainIsA(mac, secret, seed, a, blocks, i + 1);
    }
    StreamIsFlatten(mac, g, blocks, |blocks|);
    assert blocks[..|blocks|] == blocks;
  }

  lemma {:induction false} PHashChainIsA(mac: MacFunction, secret: seq<byte>, seed: seq<byte>,
                                         a: seq<seq<byte>>, blocks: seq<seq<byte>>, i: nat)
    requires PHashBlocks(mac, secret, seed, a, blocks) && i <= |blocks|
    ensures a[i] == A(mac, secret, seed, i)
  {
    if i > 0 {
      assert PHashBlockAt(mac, secret, seed, a, blocks, i - 1);
      PHashChainIsA(mac, secret, seed, a, blocks, i - 1);
    }
  }

  ghost predicate BlockIsT(mac: MacFunction, g: Generator, blocks: seq<seq<byte>>, i: nat)
    requires i < |blocks|
  {
    blocks[i] == T(mac, g, i + 1)
  }

  /** Blocks that agree with T one by one concatenate to its stream. */
  lemma {:induction false} StreamIsFlatten(mac: MacFunction, g: Generator, blocks: seq<seq<byte>>, k: nat)
    requires k <= |blocks| && forall i :: 0 <= i < |blocks| ==> BlockIsT(mac, g, blocks, i)
    ensures Stream(BlocksOf(mac, g), k) == Flatten(blocks[..k])
  {
    if k > 0 {
      StreamIsFlatten(mac, g, blocks, k - 1);
      assert BlockIsT(mac, g, blocks, k - 1);
      FlattenNext(blocks, k - 1);
      StreamNext(mac, g, k);
    }
  }

  lemma StreamNext(mac: MacFunction, g: Generator, k: nat)
    requires k > 0
    ensures Stream(BlocksOf(mac, g), k) == Stream(BlocksOf(mac, g), k - 1) + T(mac, g, k)
  {
    assert BlocksOf(mac, g)(k) == T(mac, g, k);
  }

  /** Such blocks exist for every length HKDF allows. */
  lemma HkdfBlocksCover(core: Core, alg: Algorithm, prk: seq<byte>, info: seq<byte>, n: nat)
    returns (blocks: seq<seq<byte>>)
    requires n <= 255 * DigestLen(alg)
    ensures HkdfBlocks(MacOf(core, alg), prk, info, blocks) && n <= |Flatten(blocks)|
  {
    var g, k := HkdfExpand(prk, info), BlocksFor(alg, n);
    blocks := MakeHkdfBlocks(MacOf(core, alg), prk, info, k);
    HkdfBlocksAreStream(MacOf(core, alg), prk, info, blocks);
    BlocksSized(MacOf(core, alg), alg, g);
    StreamLength(BlocksOf(MacOf(core, alg), g), alg, k);
  }

  lemma {:induction false} MakeHkdfBlocks(mac: MacFunction, prk: seq<byte>, info: seq<byte>, k: nat)
    returns (blocks: seq<seq<byte>>)
    requires k <= 255
    ensures |blocks| == k && HkdfBlocks(mac, prk, info, blocks)
  {
    blocks := [];
    if k > 0 {
      blocks := MakeHkdfBlocks(mac, prk, info, k - 1);
      AppendHkdfBlock(mac, prk, info, blocks);
      blocks := blocks + [mac(prk, Before(blocks, k - 1) + info + [k])];
    }
  }

  lemma AppendHkdfBlock(mac: MacFunction, prk: seq<byte>, info: seq<byte>, blocks: seq<seq<byte>>)
    requires HkdfBlocks(mac, prk, info, blocks) && |blocks| < 255
    ensures HkdfBlocks(mac, prk, info, blocks + [mac(prk, Before(blocks, |blocks|) + info + [|blocks| + 1])])
  {
    var more := blocks + [mac(prk, Before(blocks, |blocks|) + info + [|blocks| + 1])];
    forall i | 0 <= i < |more| ensures HkdfBlockAt(mac, prk, info, more, i) {
      assert Before(more, i) == Before(blocks, i);
      if i < |blocks| {
        assert HkdfBlockAt(mac, prk, info, blocks, i);
      }
    }
  }

  /** And for every length at all for P_hash. */
  lemma PHashBlocksCover(core: Core, alg: Algorithm, secret: seq<byte>, seed: seq<byte>, n: nat)
    returns (a: seq<seq<byte>>, blocks: seq<seq<byte>>)
    ensures PHashBlocks(MacOf(core, alg), secret, seed, a, blocks) && n <= |Flatten(blocks)|
  {
    var g, k := PHash(secret, seed), BlocksFor(alg, n);
    a, blocks := MakePHashBlocks(MacOf(core, alg), secret, seed, k);
    PHashBlocksAreStream(MacOf(core, alg), secret, seed, a, blocks);
    BlocksSized(MacOf(core, alg), alg, g);
    StreamLength(BlocksOf(MacOf(core, alg), g), alg, k);
  }

  lemma {:induction false} MakePHashBlocks(mac: MacFunction, secret: seq<byte>, seed: seq<byte>, k: nat)
    returns (a: seq<seq<byte>>, blocks: seq<seq<byte>>)
    ensures |blocks| == k && PHashBlocks(mac, secret, seed, a, blocks)
  {
    a, blocks := [seed], [];
    if k > 0 {
      a, blocks := MakePHashBlocks(mac, secret, seed, k - 1);
      var next := mac(secret, a[k - 1]);
      var block := mac(secret, next + seed);
      AppendPHashBlock(mac, secret, seed, a, blocks, next, block);
      a, blocks := a + [next], blocks + [block];
    }
  }

  lemma AppendPHashBlock(mac: MacFunction, secret: seq<byte>, seed: seq<byte>,
                         a: seq<seq<byte>>, blocks: seq<seq<byte>>, next: seq<byte>, block: seq<byte>)
    requires PHashBlocks(mac, secret, seed, a, blocks)
    requires next == mac(secret, a[|blocks|]) && block == mac(secret, next + seed)
    ensures PHashBlocks(mac, secret, seed, a + [next], blocks + [block])
  {
    forall i | 0 <= i <= |blocks| ensures PHashBlockAt(mac, secret, seed, a + [next], blocks + [block], i) {
      if i < |blocks| {
        assert PHashBlockAt(mac, secret, seed, a, blocks, i);
      }
    }
  }

  /** The 48 octets of a master secret, spelled out in HMAC: one block of SHA-384, or one and a half
      of SHA-256. */
  lemma PHash48(core: Core, alg: Algorithm, secret: seq<byte>, seed: seq<byte>)
    ensures var a1 := Mac(core, alg, secret, seed);
            var a2 := Mac(core, alg, secret, a1);
            Generate(core, alg, PHash(secret, seed), 48) ==
            if alg.Sha384? then Mac(core, alg, secret, a1 + seed)
            else Mac(core, alg, secret, a1 + seed) + Mac(core, alg, secret, a2 + seed)[..16]
  {
    var a, blocks := TwoPHashBlocks(MacOf(core, alg), secret, seed);
    FlattenTwo(blocks[0], blocks[1]);
    PHashRecurrence(core, alg, secret, seed, a, blocks, 48);
  }

  lemma TwoPHashBlocks(mac: MacFunction, secret: seq<byte>, seed: seq<byte>)
    returns (a: seq<seq<byte>>, blocks: seq<seq<byte>>)
    ensures PHashBlocks(mac, secret, seed, a, blocks)
    ensures var a1 := mac(secret, seed);
            blocks == [mac(secret, a1 + seed), mac(secret, mac(secret, a1) + seed)]
  {
    var a1 := mac(secret, seed);
    var a2 := mac(secret, a1);
    AppendPHashBlock(mac, secret, seed, [seed], [], a1, mac(secret, a1 + seed));
    assert [seed] + [a1] == [seed, a1] && [] + [mac(secret, a1 + seed)] == [mac(secret, a1 + seed)];
    AppendPHashBlock(mac, secret, seed, [seed, a1], [mac(secret, a1 + seed)], a2, mac(secret, a2 + seed));
    a, blocks := [seed, a1] + [a2], [mac(secret, a1 + seed)] + [mac(secret, a2 + seed)];
  }

  lemma FlattenTwo(x: seq<byte>, y: seq<byte>)
    ensures Flatten([x, y]) == x + y
  {
    assert [x, y][1..] == [y] && Flatten([y]) == y;
  }
}
