/** The library's SHA object, updated in place: a chaining value, a block buffer filled octet by
    octet, and a length. It refines a plain log of the octets fed in. */
module ShaObjects {
  import opened Bytes
  import opened Sha

  class ShaObject {
    const core: Core
    const alg: Algorithm
    const block: array<byte>
    var chain: Chain
    var used: nat
    var total: nat
    ghost var log: seq<byte>

    ghost predicate Valid()
      reads this, block
    {
      block.Length == BlockLen(alg) && used < BlockLen(alg) && Represents(core, alg, State(), log)
    }

    function State(): ShaState
      requires used <= block.Length
      reads this, block
    {
      ShaState(chain, block[..used], total)
    }

    constructor (core: Core, alg: Algorithm)
      ensures Valid() && fresh(block)
      ensures this.core == core && this.alg == alg && log == []
    {
      this.core, this.alg := core, alg;
      block := new byte[BlockLen(alg)];
      chain, used, total, log := core.init(alg), 0, 0, [];
      new;
      assert State() == ShaState(core.init(alg), [], 0);
      InitRepresents(core, alg);
    }

    method Update(data: seq<byte>)
      requires Valid()
      modifies this, block
      ensures Valid() && log == old(log) + data
    {
      ghost var before := log;
      for i := 0 to |data|
        invariant Valid() && log == before + data[..i]
      {
        FeedOne(data[i]);
        assert data[..i + 1] == data[..i] + [data[i]];
      }
    }

    method FeedOne(x: byte)
      requires Valid()
      modifies this, block
      ensures Valid() && log == old(log) + [x]
      ensures State() == Feed(core, alg, old(State()), x)
    {
      FeedRepresents(core, alg, State(), log, x);
      ghost var partial := block[..used] + [x];
      block[used] := x;
      used, total, log := used + 1, total + 1, log + [x];
      assert block[..used] == partial;
      if used == BlockLen(alg) {
        assert block[..] == partial;
        chain, used := core.compress(alg, chain, block[..]), 0;
      }
    }

    /** Pads in place: the digest is that of the whole log. */
    method Finalize() returns (digest: seq<byte>)
      requires Valid()
      modifies this, block
      ensures digest == Hash(core, alg, old(log))
    {
      ghost var st, all := State(), log;
      BeginPadding();
      var room := BlockLen(alg) - LengthLen(alg);
      FillZeros(room);
      WriteLength(room);
      assert block[..] == FinalBlocks(alg, st).1;
      chain := core.compress(alg, chain, block[..]);
      digest := Digest(alg, chain);
      assert digest == Finished(core, alg, st);
      FinishedIsHash(core, alg, st, all);
    }

    /** Appends the 0x80 octet; a block with no room left for the length is zero-filled and compressed. */
    method BeginPadding()
      requires block.Length == BlockLen(alg) && used < BlockLen(alg)
      modifies this, block
      ensures total == old(total)
      ensures var (first, last) := FinalBlocks(alg, old(State()));
              var room := BlockLen(alg) - LengthLen(alg);
              used <= room &&
              last == block[..used] + Zeros(room - used) + ToBE(8 * total, LengthLen(alg)) &&
              chain == if first == [] then old(chain) else core.compress(alg, old(chain), first)
    {
      ghost var partial := block[..used];
      block[used] := 0x80;
      used := used + 1;
      assert block[..used] == partial + [0x80];
      if used > BlockLen(alg) - LengthLen(alg) {
        FillZeros(BlockLen(alg));
        assert block[..] == block[..BlockLen(alg)] == FinalBlocks(alg, old(State())).0;
        chain, used := core.compress(alg, chain, block[..]), 0;
        assert block[..0] == [];
        assert forall z: seq<byte> :: [] + z == z;
      }
    }

    method FillZeros(end: nat)
      requires used <= end <= block.Length == BlockLen(alg)
      modifies block
      ensures block[..end] == old(block[..used]) + Zeros(end - used)
    {
      for i := used to end
        invariant block[..i] == old(block[..used]) + Zeros(i - used)
      {
        block[i] := 0;
      }
    }

    method WriteLength(room: nat)
      requires room + LengthLen(alg) == block.Length == BlockLen(alg)
      modifies block
      ensures block[..] == old(block[..room]) + ToBE(8 * total, LengthLen(alg))
    {
      var length := ToBE(8 * total, LengthLen(alg));
      for i := 0 to LengthLen(alg)
        invariant block[..room + i] == old(block[..room]) + length[..i]
      {
        block[room + i] := length[i];
        assert length[..i + 1] == length[..i] + [length[i]];
        assert block[..room + i + 1] == block[..room + i] + [length[i]];
      }
      assert block[..] == block[..room + LengthLen(alg)];
    }

    /** Copies the state, not the octets that led to it. */
    method Copy() returns (c: ShaObject)
      requires Valid()
      ensures c.Valid() && fresh(c) && fresh(c.block)
      ensures c.core == core && c.alg == alg && c.log == log && c.State() == State()
    {
      c := new ShaObject(core, alg);
      CopyFromSlice(c.block, 0, block[..used]);
      assert c.block[..used] == c.block[0..0 + used] == block[..used];
      c.chain, c.used, c.total, c.log := chain, used, total, log;
      assert c.State() == State();
    }
  }
}
