/** Output keying material as blocks: the T(i) of HKDF-Expand (section 2.3 of RFC 5869) and of
    P_hash (section 5 of RFC 5246), concatenated and cut to the length asked for. */
module KeyStreams {
  import opened Bytes
  import opened Sha
  import opened Hmac

  datatype Generator =
    | HkdfExpand(prk: seq<byte>, info: seq<byte>)
    | PHash(secret: seq<byte>, seed: seq<byte>)

  /** A keyed tag: mac(key, message). */
  type MacFunction = (seq<byte>, seq<byte>) -> seq<byte>

  function MacOf(core: Core, alg: Algorithm): MacFunction {
    (key, m) => Mac(core, alg, key, m)
  }

  ghost predicate DigestTags(mac: MacFunction, alg: Algorithm) {
    forall key, m :: |mac(key, m)| == DigestLen(alg)
  }

  /** A(0) = seed, A(i) = HMAC(secret, A(i - 1)). */
  function A(mac: MacFunction, secret: seq<byte>, seed: seq<byte>, i: nat): seq<byte> {
    if i == 0 then seed else mac(secret, A(mac, secret, seed, i - 1))
  }

  /** HKDF's one-octet block counter. */
  function Counter(i: nat): byte {
    i % 256
  }

  /** Block i, counted from 1; T(0) is empty. */
  function T(mac: MacFunction, g: Generator, i: nat): seq<byte> {
    if i == 0 then []
    else
      match g
      case HkdfExpand(prk, info) => mac(prk, T(mac, g, i - 1) + info + [Counter(i)])
      case PHash(secret, seed) => mac(secret, A(mac, secret, seed, i) + seed)
  }

  /** The blocks of a generator as a function of their number. */
  function BlocksOf(mac: MacFunction, g: Generator): nat -> seq<byte> {
    (i: nat) => T(mac, g, i)
  }

  lemma BlocksSized(mac: MacFunction, alg: Algorithm, g: Generator)
    requires DigestTags(mac, alg)
    ensures DigestSized(BlocksOf(mac, g), alg)
  {
  }

  /** The number of blocks that n octets take. */
  function BlocksFor(alg: Algorithm, n: nat): nat {
    if alg.Sha256? then (n + 31) / 32 else (n + 47) / 48
  }

  /** The first n octets of T(1) || T(2) || ... */
  function Generate(core: Core, alg: Algorithm, g: Generator, n: nat): (okm: seq<byte>)
    ensures |okm| == n
  {
    var block := BlocksOf(MacOf(core, alg), g);
    BlocksSized(MacOf(core, alg), alg, g);
    StreamLength(block, alg, BlocksFor(alg, n));
    Stream(block, BlocksFor(alg, n))[..n]
  }

  // ---------------------------------------------------------------- concatenated blocks

  /** block(1) || ... || block(k) */
  function Stream(block: nat -> seq<byte>, k: nat): seq<byte> {
    if k == 0 then [] else Stream(block, k - 1) + block(k)
  }

  ghost predicate DigestSized(block: nat -> seq<byte>, alg: Algorithm) {
    forall i: nat :: i > 0 ==> |block(i)| == DigestLen(alg)
  }

  lemma {:induction false} StreamLength(block: nat -> seq<byte>, alg: Algorithm, k: nat)
    requires DigestSized(block, alg)
    ensures |Stream(block, k)| == if alg.Sha256? then 32 * k else 48 * k
  {
    if k > 0 {
      StreamLength(block, alg, k - 1);
    }
  }

  lemma {:induction false} StreamPrefix(block: nat -> seq<byte>, j: nat, k: nat)
    requires j <= k
    ensures Stream(block, j) <= Stream(block, k)
  {
    if j < k {
      StreamPrefix(block, j, k - 1);
    }
  }

  /** Any number of blocks that covers n octets yields the same n octets. */
  lemma GenerateFrom(core: Core, alg: Algorithm, g: Generator, n: nat, k: nat)
    requires n <= |Stream(BlocksOf(MacOf(core, alg), g), k)|
    ensures Generate(core, alg, g, n) == Stream(BlocksOf(MacOf(core, alg), g), k)[..n]
  {
    BlocksSized(MacOf(core, alg), alg, g);
    StreamCut(BlocksOf(MacOf(core, alg), g), alg, n, k);
  }

  lemma StreamCut(block: nat -> seq<byte>, alg: Algorithm, n: nat, k: nat)
    requires DigestSized(block, alg) && n <= |Stream(block, k)|
    ensures n <= |Stream(block, BlocksFor(alg, n))|
    ensures Stream(block, BlocksFor(alg, n))[..n] == Stream(block, k)[..n]
  {
    var least := BlocksFor(alg, n);
    StreamLength(block, alg, k);
    StreamLength(block, alg, least);
    StreamPrefix(block, least, k);
  }

  /** Outputs of different lengths agree on their common prefix. */
  lemma ShorterIsPrefix(core: Core, alg: Algorithm, g: Generator, m: nat, n: nat)
    requires m <= n
    ensures Generate(core, alg, g, m) == Generate(core, alg, g, n)[..m]
  {
    var block, k := BlocksOf(MacOf(core, alg), g), BlocksFor(alg, n);
    BlocksSized(MacOf(core, alg), alg, g);
    StreamLength(block, alg, k);
    GenerateFrom(core, alg, g, m, k);
    assert Stream(block, k)[..n][..m] == Stream(block, k)[..m];
  }

  /** One block asked for is T(1). */
  lemma FirstBlock(core: Core, alg: Algorithm, g: Generator)
    ensures Generate(core, alg, g, DigestLen(alg)) == T(MacOf(core, alg), g, 1)
  {
    var block := BlocksOf(MacOf(core, alg), g);
    BlocksSized(MacOf(core, alg), alg, g);
    StreamOne(block);
    assert BlocksFor(alg, DigestLen(alg)) == 1 && block(1) == T(MacOf(core, alg), g, 1);
  }

  lemma StreamOne(block: nat -> seq<byte>)
    ensures Stream(block, 1) == block(1)
  {
    assert Stream(block, 0) == [];
  }

  /** The length limit is where the counter of the last block stops fitting in one octet. */
  lemma LimitIsOneOctet(alg: Algorithm, n: nat)
    ensures n <= 255 * DigestLen(alg) <==> Counter(BlocksFor(alg, n)) == BlocksFor(alg, n)
  {
  }

  // ---------------------------------------------------------------- filling a buffer

  /** The octets written are those of the first k blocks, complete or cut off by the buffer's size. */
  ghost predicate Filled(block: nat -> seq<byte>, k: nat, written: seq<byte>, size: nat) {
    var s := Stream(block, k);
    |written| <= size && (|written| == |s| || |written| == size <= |s|) && written == s[..|written|]
  }

  lemma FilledNext(block: nat -> seq<byte>, k: nat, written: seq<byte>, take: nat, size: nat)
    requires Filled(block, k, written, size) && |written| < size
    requires take == if |block(k + 1)| <= size - |written| then |block(k + 1)| else size - |written|
    ensures Filled(block, k + 1, written + block(k + 1)[..take], size)
  {
    var s, t := Stream(block, k), block(k + 1);
    assert written == s;
    assert Stream(block, k + 1) == s + t;
    assert written + t[..take] == (s + t)[..|s| + take];
  }

  /** Writes as much of the next block as still fits behind the octets already written. */
  method NextBlock(ghost block: nat -> seq<byte>, ghost k: nat, out: array<byte>, start: nat, t: seq<byte>)
    returns (done: nat)
    requires start < out.Length && t == block(k + 1) && t != []
    requires Filled(block, k, out[..start], out.Length)
    modifies out
    ensures start < done <= out.Length
    ensures Filled(block, k + 1, out[..done], out.Length)
  {
    ghost var written := out[..start];
    var take := if |t| <= out.Length - start then |t| else out.Length - start;
    CopyFromSlice(out, start, t[..take]);
    done := start + take;
    assert out[..done] == written + t[..take] by {
      assert out[..done] == out[..start] + out[start..done];
    }
    FilledNext(block, k, written, take, out.Length);
  }

  lemma FilledIsGenerated(core: Core, alg: Algorithm, g: Generator, k: nat, written: seq<byte>)
    requires Filled(BlocksOf(MacOf(core, alg), g), k, written, |written|)
    ensures written == Generate(core, alg, g, |written|)
  {
    GenerateFrom(core, alg, g, |written|, k);
  }

  /** T(i + 1) from T(i). */
  method HkdfBlock(core: Core, alg: Algorithm, prk: seq<byte>, info: seq<byte>, i: nat, t: seq<byte>)
    returns (t': seq<byte>)
    requires t == T(MacOf(core, alg), HkdfExpand(prk, info), i)
    ensures t' == T(MacOf(core, alg), HkdfExpand(prk, info), i + 1) && t' != []
  {
    t' := Mac(core, alg, prk, t + info + [Counter(i + 1)]);
  }

  /** Block by block into the caller's buffer, as the library's `hkdf_expand` does. */
  method ExpandInto(core: Core, alg: Algorithm, prk: seq<byte>, info: Option<seq<byte>>, out: array<byte>)
    modifies out
    ensures out[..] == Generate(core, alg,
                         HkdfExpand(prk, if info.Some? then info.value else []), out.Length)
  {
    var suffix := if info.Some? then info.value else [];
    ghost var g := HkdfExpand(prk, suffix);
    var t: seq<byte>, i: nat, done: nat := [], 0, 0;
    while done < out.Length
      invariant done <= out.Length && t == T(MacOf(core, alg), g, i)
      invariant Filled(BlocksOf(MacOf(core, alg), g), i, out[..done], out.Length)
      decreases out.Length - done
    {
      t := HkdfBlock(core, alg, prk, suffix, i, t);
      done := NextBlock(BlocksOf(MacOf(core, alg), g), i, out, done, t);
      i := i + 1;
    }
    assert out[..] == out[..done];
    FilledIsGenerated(core, alg, g, i, out[..]);
  }

  /** A(i + 1) from A(i), and block i + 1 from it. */
  method PHashBlock(core: Core, alg: Algorithm, secret: seq<byte>, seed: seq<byte>, ghost i: nat, a: seq<byte>)
    returns (a': seq<byte>, t: seq<byte>)
    requires a == A(MacOf(core, alg), secret, seed, i)
    ensures a' == A(MacOf(core, alg), secret, seed, i + 1)
    ensures t == T(MacOf(core, alg), PHash(secret, seed), i + 1) && t != []
  {
    a' := Mac(core, alg, secret, a);
    t := Mac(core, alg, secret, a' + seed);
  }

  /** Block by block into the caller's buffer, as the library's `prf` does. */
  method PHashInto(core: Core, alg: Algorithm, secret: seq<byte>, seed: seq<byte>, out: array<byte>)
    modifies out
    ensures out[..] == Generate(core, alg, PHash(secret, seed), out.Length)
  {
    ghost var g := PHash(secret, seed);
    var a, done: nat := seed, 0;
    ghost var i: nat := 0;
    while done < out.Length
      invariant done <= out.Length && a == A(MacOf(core, alg), secret, seed, i)
      invariant Filled(BlocksOf(MacOf(core, alg), g), i, out[..done], out.Length)
      decreases out.Length - done
    {
      var t;
      a, t := PHashBlock(core, alg, secret, seed, i, a);
      done := NextBlock(BlocksOf(MacOf(core, alg), g), i, out, done, t);
      i := i + 1;
    }
    assert out[..] == out[..done];
    FilledIsGenerated(core, alg, g, i, out[..]);
  }
}
