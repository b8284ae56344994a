/** SHA-256 and SHA-384 over a compression function passed as a parameter: the message digest of
    sections 5.1 and 6 of FIPS 180-4, and the incremental state the library keeps for it. */
module Sha {
  import opened Bytes

  datatype Algorithm = Sha256 | Sha384

  /** Eight words; SHA-384 keeps the first six in its digest. */
  type Chain = s: seq<nat> | |s| == 8 witness [0, 0, 0, 0, 0, 0, 0, 0]

  datatype Core = Core(init: Algorithm -> Chain, compress: (Algorithm, Chain, seq<byte>) -> Chain)

  function BlockLen(alg: Algorithm): nat {
    if alg.Sha256? then 64 else 128
  }

  /** Octets of the message length at the end of the padding. */
  function LengthLen(alg: Algorithm): nat {
    if alg.Sha256? then 8 else 16
  }

  function DigestLen(alg: Algorithm): nat {
    if alg.Sha256? then 32 else 48
  }

  function Words(words: seq<nat>, wordLen: nat): (b: seq<byte>)
    ensures |b| == |words| * wordLen
  {
    if words == [] then [] else ToBE(words[0], wordLen) + Words(words[1..], wordLen)
  }

  function Digest(alg: Algorithm, chain: Chain): (d: seq<byte>)
    ensures |d| == DigestLen(alg)
  {
    if alg.Sha256? then Words(chain, 4) else Words(chain[..6], 8)
  }

  // ---------------------------------------------------------------- one-shot hash

  /** A whole number of blocks. */
  predicate Aligned(alg: Algorithm, n: nat) {
    if alg.Sha256? then n % 64 == 0 else n % 128 == 0
  }

  function ZeroCount(alg: Algorithm, n: nat): nat {
    if alg.Sha256? then (-(n + 9)) % 64 else (-(n + 17)) % 128
  }

  /** Section 5.1: a one bit, the least number of zeros, and the length in bits. */
  function Padding(alg: Algorithm, n: nat): seq<byte> {
    [0x80] + Zeros(ZeroCount(alg, n)) + ToBE(8 * n, LengthLen(alg))
  }

  /** Compresses block after block. */
  function Fold(core: Core, alg: Algorithm, chain: Chain, data: seq<byte>): Chain
    decreases |data|
  {
    if |data| < BlockLen(alg) then chain
    else Fold(core, alg, core.compress(alg, chain, data[..BlockLen(alg)]), data[BlockLen(alg)..])
  }

  function Hash(core: Core, alg: Algorithm, m: seq<byte>): (d: seq<byte>)
    ensures |d| == DigestLen(alg)
  {
    Digest(alg, Fold(core, alg, core.init(alg), m + Padding(alg, |m|)))
  }

  /** Padding completes the last block, with the least number of zeros that can. */
  lemma PaddingIsLeast(alg: Algorithm, n: nat, zeros: nat)
    ensures |Padding(alg, n)| == 1 + ZeroCount(alg, n) + LengthLen(alg)
    ensures Aligned(alg, n + 1 + ZeroCount(alg, n) + LengthLen(alg))
    ensures Aligned(alg, n + 1 + zeros + LengthLen(alg)) ==> zeros >= ZeroCount(alg, n)
  {
    match alg {
      case Sha256 =>
        NegMod64(n + 9, zeros);
        assert n + 1 + zeros + 8 == n + 9 + zeros && n + 1 + ZeroCount(alg, n) + 8 == n + 9 + ZeroCount(alg, n);
      case Sha384 =>
        NegMod128(n + 17, zeros);
        assert n + 1 + zeros + 16 == n + 17 + zeros && n + 1 + ZeroCount(alg, n) + 16 == n + 17 + ZeroCount(alg, n);
    }
  }

  lemma NegMod64(x: int, z: nat)
    ensures 0 <= (-x) % 64 < 64 && (x + (-x) % 64) % 64 == 0
    ensures (x + z) % 64 == 0 ==> z >= (-x) % 64
  {
  }

  lemma NegMod128(x: int, z: nat)
    ensures 0 <= (-x) % 128 < 128 && (x + (-x) % 128) % 128 == 0
    ensures (x + z) % 128 == 0 ==> z >= (-x) % 128
  {
  }

  lemma {:induction false} FoldAppend(core: Core, alg: Algorithm, chain: Chain, a: seq<byte>, b: seq<byte>)
    requires Aligned(alg, |a|)
    ensures Fold(core, alg, chain, a + b) == Fold(core, alg, Fold(core, alg, chain, a), b)
    decreases |a|
  {
    var n := BlockLen(alg);
    if |a| < n {
      assert a == [];
      assert a + b == b;
    } else {
      assert (a + b)[..n] == a[..n] && (a + b)[n..] == a[n..] + b;
      FoldAppend(core, alg, core.compress(alg, chain, a[..n]), a[n..], b);
    }
  }

  lemma FoldBlock(core: Core, alg: Algorithm, chain: Chain, block: seq<byte>, rest: seq<byte>)
    requires |block| == BlockLen(alg)
    ensures Fold(core, alg, chain, block + rest) == Fold(core, alg, core.compress(alg, chain, block), rest)
  {
    assert (block + rest)[..|block|] == block && (block + rest)[|block|..] == rest;
  }

  // ---------------------------------------------------------------- what a hash is, octet by octet

  /** Section 5.1.1 of FIPS 180-4 in literal octets: 0x80, zeros, and the message length in bits as
      an integer of 64 or 128 bits. */
  lemma PaddingOctets(alg: Algorithm, n: nat)
    requires 8 * n < if alg.Sha256? then 0x1_0000_0000_0000_0000 else 0x1_0000_0000_0000_0000_0000_0000_0000_0000
    ensures var pad, l := Padding(alg, n), if alg.Sha256? then 8 else 16;
            |pad| > l && pad[0] == 0x80 && (forall i :: 1 <= i < |pad| - l ==> pad[i] == 0) &&
            FromBE(pad[|pad| - l..]) == 8 * n
    ensures var pad := Padding(alg, n);
            if alg.Sha256? then (n + |pad|) % 64 == 0 && 9 <= |pad| <= 72
            else (n + |pad|) % 128 == 0 && 17 <= |pad| <= 144
  {
    PaddingIsLeast(alg, n, 0);
    PaddingEnd(alg, n);
  }

  lemma PaddingEnd(alg: Algorithm, n: nat)
    requires 8 * n < if alg.Sha256? then 0x1_0000_0000_0000_0000 else 0x1_0000_0000_0000_0000_0000_0000_0000_0000
    ensures var pad, l := Padding(alg, n), if alg.Sha256? then 8 else 16;
            |pad| > l && FromBE(pad[|pad| - l..]) == 8 * n
  {
    var pad, l := Padding(alg, n), if alg.Sha256? then 8 else 16;
    assert pad[|pad| - l..] == ToBE(8 * n, l);
    Pow256Of16();
    Pow256Values();
    FromToBE(8 * n, l);
  }

  lemma Pow256Of16()
    ensures Pow256(16) == 0x1_0000_0000_0000_0000_0000_0000_0000_0000
  {
    Pow256Values();
    assert Pow256(10) == 0x1_0000 * Pow256(8);
    assert Pow256(12) == 0x1_0000 * Pow256(10);
    assert Pow256(14) == 0x1_0000 * Pow256(12);
    assert Pow256(16) == 0x1_0000 * Pow256(14);
  }

  /** Chaining values linked by compression, block by block, from the initial one. */
  ghost predicate Links(core: Core, alg: Algorithm, blocks: seq<seq<byte>>, chain: seq<Chain>) {
    |chain| == |blocks| + 1 && chain[0] == core.init(alg) &&
    forall i :: 0 <= i < |blocks| ==> LinkAt(core, alg, blocks, chain, i)
  }

  ghost predicate LinkAt(core: Core, alg: Algorithm, blocks: seq<seq<byte>>, chain: seq<Chain>, i: nat)
    requires |chain| == |blocks| + 1 && i < |blocks|
  {
    |blocks[i]| == (if alg.Sha256? then 64 else 128) && chain[i + 1] == core.compress(alg, chain[i], blocks[i])
  }

  /** Section 6 of FIPS 180-4: any cutting of the padded message into blocks, and the chaining values
      they link, end in the digest. */
  lemma HashLinks(core: Core, alg: Algorithm, m: seq<byte>, blocks: seq<seq<byte>>, chain: seq<Chain>)
    requires Links(core, alg, blocks, chain) && Flatten(blocks) == m + Padding(alg, |m|)
    ensures Hash(core, alg, m) == Digest(alg, chain[|blocks|])
  {
    FoldLinks(core, alg, blocks, chain, |blocks|);
    assert blocks[..|blocks|] == blocks;
  }

  lemma {:induction false} FoldLinks(core: Core, alg: Algorithm, blocks: seq<seq<byte>>, chain: seq<Chain>, i: nat)
    requires Links(core, alg, blocks, chain) && i <= |blocks|
    ensures Aligned(alg, |Flatten(blocks[..i])|)
    ensures Fold(core, alg, core.init(alg), Flatten(blocks[..i])) == chain[i]
  {
    if i > 0 {
      assert LinkAt(core, alg, blocks, chain, i - 1);
      FoldLinks(core, alg, blocks, chain, i - 1);
      FlattenNext(blocks, i - 1);
      AlignedNext(alg, |Flatten(blocks[..i - 1])|);
      FoldOneMore(core, alg, core.init(alg), Flatten(blocks[..i - 1]), blocks[i - 1]);
    }
  }

  /** The digest, word by word: eight 32-bit words, or the first six of 64 bits, each big-endian. */
  lemma DigestWord(alg: Algorithm, chain: Chain, i: nat)
    requires i < if alg.Sha256? then 8 else 6
    ensures var d := Digest(alg, chain);
            if alg.Sha256?
            then |d| == 32 && FromBE(d[4 * i..4 * i + 4]) == chain[i] % 0x1_0000_0000
            else |d| == 48 && FromBE(d[8 * i..8 * i + 8]) == chain[i] % 0x1_0000_0000_0000_0000
  {
    match alg {
      case Sha256 => Word4(chain, i);
      case Sha384 => Word8(chain[..6], i);
    }
  }

  lemma Word4(words: seq<nat>, i: nat)
    requires i < |words|
    ensures FromBE(Words(words, 4)[4 * i..4 * i + 4]) == words[i] % 0x1_0000_0000
  {
    WordsAt4(words, i);
    ToBETruncates(words[i]);
  }

  lemma Word8(words: seq<nat>, i: nat)
    requires i < |words|
    ensures FromBE(Words(words, 8)[8 * i..8 * i + 8]) == words[i] % 0x1_0000_0000_0000_0000
  {
    WordsAt8(words, i);
    ToBETruncates(words[i]);
  }

  lemma {:induction false} WordsAt4(words: seq<nat>, i: nat)
    requires i < |words|
    ensures Words(words, 4)[4 * i..4 * i + 4] == ToBE(words[i], 4)
  {
    var head, rest := ToBE(words[0], 4), Words(words[1..], 4);
    assert Words(words, 4) == head + rest;
    if i == 0 {
      assert (head + rest)[0..4] == head;
    } else {
      WordsAt4(words[1..], i - 1);
      SliceBehind(head, rest, 4 * (i - 1), 4 * (i - 1) + 4);
    }
  }

  lemma {:induction false} WordsAt8(words: seq<nat>, i: nat)
    requires i < |words|
    ensures Words(words, 8)[8 * i..8 * i + 8] == ToBE(words[i], 8)
  {
    var head, rest := ToBE(words[0], 8), Words(words[1..], 8);
    assert Words(words, 8) == head + rest;
    if i == 0 {
      assert (head + rest)[0..8] == head;
    } else {
      WordsAt8(words[1..], i - 1);
      SliceBehind(head, rest, 8 * (i - 1), 8 * (i - 1) + 8);
    }
  }

  lemma SliceBehind(a: seq<byte>, b: seq<byte>, i: nat, j: nat)
    requires i <= j <= |b|
    ensures (a + b)[|a| + i..|a| + j] == b[i..j]
  {
  }

  // ---------------------------------------------------------------- incremental state

  /** The chaining value, the octets of the unfinished block, and the octets fed in all. */
  datatype ShaState = ShaState(chain: Chain, partial: seq<byte>, total: nat)

  /** The state is the one reached by feeding exactly the octets of log. */
  ghost predicate Represents(core: Core, alg: Algorithm, st: ShaState, log: seq<byte>) {
    |st.partial| < BlockLen(alg) && |st.partial| <= |log| == st.total &&
    var cut := |log| - |st.partial|;
    Aligned(alg, cut) && st.partial == log[cut..] &&
    st.chain == Fold(core, alg, core.init(alg), log[..cut])
  }

  lemma InitRepresents(core: Core, alg: Algorithm)
    ensures Represents(core, alg, ShaState(core.init(alg), [], 0), [])
  {
  }

  /** Feeds one octet; a block that fills up is compressed. */
  function Feed(core: Core, alg: Algorithm, st: ShaState, x: byte): ShaState {
    var partial := st.partial + [x];
    if |partial| == BlockLen(alg)
    then ShaState(core.compress(alg, st.chain, partial), [], st.total + 1)
    else ShaState(st.chain, partial, st.total + 1)
  }

  lemma FeedRepresents(core: Core, alg: Algorithm, st: ShaState, log: seq<byte>, x: byte)
    requires Represents(core, alg, st, log)
    ensures Represents(core, alg, Feed(core, alg, st, x), log + [x])
  {
    var cut := |log| - |st.partial|;
    var partial := st.partial + [x];
    assert (log + [x])[..cut] == log[..cut] && (log + [x])[cut..] == partial;
    if |partial| == BlockLen(alg) {
      assert log + [x] == log[..cut] + partial;
      FoldOneMore(core, alg, core.init(alg), log[..cut], partial);
      AlignedNext(alg, cut);
      assert (log + [x])[..|log| + 1] == log + [x];
    }
  }

  lemma AlignedNext(alg: Algorithm, n: nat)
    requires Aligned(alg, n)
    ensures Aligned(alg, n + BlockLen(alg))
  {
    match alg {
      case Sha256 => assert (n + 64) % 64 == n % 64;
      case Sha384 => assert (n + 128) % 128 == n % 128;
    }
  }

  lemma FoldOneMore(core: Core, alg: Algorithm, chain: Chain, done: seq<byte>, block: seq<byte>)
    requires Aligned(alg, |done|) && |block| == BlockLen(alg)
    ensures Fold(core, alg, chain, done + block) == core.compress(alg, Fold(core, alg, chain, done), block)
  {
    FoldAppend(core, alg, chain, done, block);
    assert block + [] == block;
    FoldBlock(core, alg, Fold(core, alg, chain, done), block, []);
  }

  /** Pads the unfinished block into one last block, or two if the length no longer fits. */
  function FinalBlocks(alg: Algorithm, st: ShaState): (seq<byte>, seq<byte>)
    requires |st.partial| < BlockLen(alg)
  {
    var p := st.partial + [0x80];
    var room := BlockLen(alg) - LengthLen(alg);
    var length := ToBE(8 * st.total, LengthLen(alg));
    if |p| > room
    then (p + Zeros(BlockLen(alg) - |p|), Zeros(room) + length)
    else ([], p + Zeros(room - |p|) + length)
  }

  function Finished(core: Core, alg: Algorithm, st: ShaState): seq<byte>
    requires |st.partial| < BlockLen(alg)
  {
    var (first, last) := FinalBlocks(alg, st);
    var chain := if first == [] then st.chain else core.compress(alg, st.chain, first);
    Digest(alg, core.compress(alg, chain, last))
  }

  /** Finishing a state gives the one-shot hash of the octets it stands for. */
  lemma FinishedIsHash(core: Core, alg: Algorithm, st: ShaState, log: seq<byte>)
    requires Represents(core, alg, st, log)
    ensures Finished(core, alg, st) == Hash(core, alg, log)
  {
    var cut := |log| - |st.partial|;
    var pad := Padding(alg, |log|);
    var (first, last) := FinalBlocks(alg, st);
    FinalBlocksArePadding(alg, st, log);
    assert log + pad == log[..cut] + (first + last);
    FoldAppend(core, alg, core.init(alg), log[..cut], first + last);
    FoldFinalBlocks(core, alg, st.chain, first, last);
  }

  lemma FoldFinalBlocks(core: Core, alg: Algorithm, chain: Chain, first: seq<byte>, last: seq<byte>)
    requires |last| == BlockLen(alg) && (first == [] || |first| == BlockLen(alg))
    ensures var c := if first == [] then chain else core.compress(alg, chain, first);
            Fold(core, alg, chain, first + last) == core.compress(alg, c, last)
  {
    FoldOneMore(core, alg, chain, first, last);
    if first != [] {
      assert [] + first == first;
      FoldOneMore(core, alg, chain, [], first);
    }
  }

  lemma FinalBlocksArePadding(alg: Algorithm, st: ShaState, log: seq<byte>)
    requires |st.partial| < BlockLen(alg) && |st.partial| <= |log| == st.total
    requires Aligned(alg, |log| - |st.partial|)
    ensures var (first, last) := FinalBlocks(alg, st);
            st.partial + Padding(alg, |log|) == first + last &&
            |last| == BlockLen(alg) && (first == [] || |first| == BlockLen(alg))
  {
    ZeroCountValue(alg, |st.partial|, |log|);
    var gap, room := BlockLen(alg) - |st.partial| - 1, BlockLen(alg) - LengthLen(alg);
    var length := ToBE(8 * st.total, LengthLen(alg));
    if gap < LengthLen(alg) {
      TwoBlocks(st.partial, gap, room, length);
    } else {
      OneBlock(st.partial, gap - LengthLen(alg), length);
    }
  }

  lemma TwoBlocks(partial: seq<byte>, gap: nat, room: nat, length: seq<byte>)
    ensures partial + ([0x80] + Zeros(gap + room) + length)
         == ((partial + [0x80]) + Zeros(gap)) + (Zeros(room) + length)
  {
    assert Zeros(gap + room) == Zeros(gap) + Zeros(room);
  }

  lemma OneBlock(partial: seq<byte>, zeros: nat, length: seq<byte>)
    ensures partial + ([0x80] + Zeros(zeros) + length)
         == [] + ((partial + [0x80]) + Zeros(zeros) + length)
  {
  }

  lemma ZeroCountValue(alg: Algorithm, partial: nat, n: nat)
    requires partial < BlockLen(alg) && partial <= n && Aligned(alg, n - partial)
    ensures var gap := BlockLen(alg) - partial - 1;
            ZeroCount(alg, n) == if gap < LengthLen(alg) then gap + BlockLen(alg) - LengthLen(alg) else gap - LengthLen(alg)
  {
    match alg {
      case Sha256 => ZeroCount64(partial, (n - partial) / 64);
      case Sha384 => ZeroCount128(partial, (n - partial) / 128);
    }
  }

  lemma ZeroCount64(partial: nat, blocks: int)
    requires partial < 64
    ensures (-(64 * blocks + partial + 9)) % 64 == if partial > 55 then 119 - partial else 55 - partial
  {
    var z := if partial > 55 then 119 - partial else 55 - partial;
    assert -(64 * blocks + partial + 9) == 64 * (if partial > 55 then -blocks - 2 else -blocks - 1) + z;
  }

  lemma ZeroCount128(partial: nat, blocks: int)
    requires partial < 128
    ensures (-(128 * blocks + partial + 17)) % 128 == if partial > 111 then 239 - partial else 111 - partial
  {
    var z := if partial > 111 then 239 - partial else 111 - partial;
    assert -(128 * blocks + partial + 17) == 128 * (if partial > 111 then -blocks - 2 else -blocks - 1) + z;
  }
}
