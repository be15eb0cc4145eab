/**
 * Output Feedback (OFB) mode as defined in GOST R 34.13-2015, section 5.3:
 * a ring of `Z` IV blocks, each encrypted in place in turn to give the next
 * keystream block, of which the first `S` bytes are XOR-ed into the data.
 */
module GostOfb {
  import opened Bytes
  import opened BlockCipher
  import opened Wrappers
  import ModArith

  /** The ring within the source's bounds: the `Z` blocks fit in one Rust object. */
  ghost predicate ValidChain(r: Ring, bs: nat) {
    r.Valid(bs) && |r.slots| <= ISIZE_MAX
  }

  /**
   * One block: slot `pos` is replaced by its encryption, `pos` advances by a
   * wrapping add modulo Z, and the data is XOR-ed with the first `s` bytes of
   * the new slot.
   */
  function Step(c: Cipher, s: nat, r: Ring, block: Block): (res: (Ring, Block))
    requires c.WellFormed() && 0 < s <= c.blockSize && ValidChain(r, c.blockSize) && |block| == s
    ensures ValidChain(res.0, c.blockSize) && |res.1| == s
    ensures res.0.pos == (r.pos + 1) % |r.slots|
  {
    var ks := c.encrypt(r.slots[r.pos]);
    (Ring(r.slots[r.pos := ks], WrappingAdd(r.pos, 1) % |r.slots|), XorBytes(block, ks[..s]))
  }

  /** Blocks processed one after another: the final ring and the output blocks. */
  function ApplyBlocks(c: Cipher, s: nat, r: Ring, blocks: seq<Block>): (res: (Ring, seq<Block>))
    requires c.WellFormed() && 0 < s <= c.blockSize && ValidChain(r, c.blockSize)
    requires AllBlocks(blocks, s)
    ensures ValidChain(res.0, c.blockSize) && |res.1| == |blocks| && AllBlocks(res.1, s)
    decreases |blocks|
  {
    if blocks == [] then (r, [])
    else
      var prev := ApplyBlocks(c, s, r, blocks[..|blocks| - 1]);
      var last := Step(c, s, prev.0, blocks[|blocks| - 1]);
      (last.0, prev.1 + [last.1])
  }

  lemma ApplyBlocksSnoc(c: Cipher, s: nat, r: Ring, blocks: seq<Block>, b: Block)
    requires c.WellFormed() && 0 < s <= c.blockSize && ValidChain(r, c.blockSize)
    requires AllBlocks(blocks, s) && |b| == s
    ensures AllBlocks(blocks + [b], s)
    ensures var prev := ApplyBlocks(c, s, r, blocks);
            var last := Step(c, s, prev.0, b);
            ApplyBlocks(c, s, r, blocks + [b]) == (last.0, prev.1 + [last.1])
  {
    assert (blocks + [b])[..|blocks|] == blocks;
  }

  /**
   * Encryption and decryption are the same transformation, so running the
   * output through a second instance started from the same state gives the
   * input back, and both instances end in the same state.
   */
  lemma {:induction false} ApplyTwice(c: Cipher, s: nat, r: Ring, blocks: seq<Block>)
    requires c.WellFormed() && 0 < s <= c.blockSize && ValidChain(r, c.blockSize)
    requires AllBlocks(blocks, s)
    ensures ApplyBlocks(c, s, r, ApplyBlocks(c, s, r, blocks).1) == (ApplyBlocks(c, s, r, blocks).0, blocks)
  {
    if blocks != [] {
      var n := |blocks|;
      var front, b := blocks[..n - 1], blocks[n - 1];
      assert blocks == front + [b];
      var e1 := ApplyBlocks(c, s, r, front);
      var e2 := Step(c, s, e1.0, b);
      ApplyBlocksSnoc(c, s, r, front, b);
      ApplyTwice(c, s, r, front);
      ApplyBlocksSnoc(c, s, r, e1.1, e2.1);
      XorBytesCancel(b, c.encrypt(e1.0.slots[e1.0.pos])[..s]);
    }
  }

  /** `b` encrypted `k` times over. */
  function Iterate(c: Cipher, b: Block, k: nat): (r: Block)
    requires c.WellFormed() && |b| == c.blockSize
    ensures |r| == c.blockSize
  {
    if k == 0 then b else c.encrypt(Iterate(c, b, k - 1))
  }

  /** How many times slot `i` of `z` has been encrypted after `n` blocks from a fresh start. */
  function Uses(n: nat, z: nat, i: nat): nat
    requires z > 0
  {
    n / z + (if i < n % z then 1 else 0)
  }

  /** Keystream block `j` from a fresh start: `E^(j/Z + 1)(R_{j mod Z})`. */
  function KeystreamBlock(c: Cipher, iv: seq<Byte>, z: nat, j: nat): (r: Block)
    requires c.WellFormed() && 0 < z && |iv| == z * c.blockSize
    ensures |r| == c.blockSize
  {
    Iterate(c, Chunk(iv, c.blockSize, z, j % z), j / z + 1)
  }

  /**
   * The ring after `n` blocks from a fresh start: the next slot is `n mod Z`,
   * and slot `i` holds `R_i` encrypted once for each block that used it.
   */
  ghost predicate RingAfter(c: Cipher, iv: seq<Byte>, z: nat, n: nat, r: Ring)
    requires c.WellFormed() && 0 < z && |iv| == z * c.blockSize
  {
    && |r.slots| == z
    && r.pos == n % z
    && forall i :: 0 <= i < z ==> r.slots[i] == Iterate(c, Chunk(iv, c.blockSize, z, i), Uses(n, z, i))
  }

  /** One step from the ring after `n` blocks gives the ring after `n + 1` and uses keystream block `n`. */
  lemma StepRingAfter(c: Cipher, s: nat, iv: seq<Byte>, z: nat, n: nat, r: Ring, b: Block)
    requires c.WellFormed() && 0 < s <= c.blockSize && |b| == s
    requires 0 < z && |iv| == z * c.blockSize
    requires ValidChain(r, c.blockSize) && RingAfter(c, iv, z, n, r)
    ensures RingAfter(c, iv, z, n + 1, Step(c, s, r, b).0)
    ensures Step(c, s, r, b).1 == XorBytes(b, KeystreamBlock(c, iv, z, n)[..s])
  {
    var bs := c.blockSize;
    var p := n % z;
    var next := Step(c, s, r, b).0;
    ModArith.DivModSucc(n, z);
    ModArith.ModSucc(n, z);
    assert Uses(n, z, p) == n / z;
    assert next.slots == r.slots[p := c.encrypt(r.slots[p])];
    forall i | 0 <= i < z
      ensures next.slots[i] == Iterate(c, Chunk(iv, bs, z, i), Uses(n + 1, z, i))
    {
      if i == p {
        assert Uses(n + 1, z, i) == n / z + 1;
      } else {
        assert Uses(n + 1, z, i) == Uses(n, z, i);
      }
    }
  }

  /** The ring after any number of blocks from a fresh start is as `RingAfter` describes. */
  lemma {:induction false} RingAfterBlocks(c: Cipher, s: nat, iv: seq<Byte>, z: nat, blocks: seq<Block>)
    requires c.WellFormed() && 0 < s <= c.blockSize
    requires 0 < z <= ISIZE_MAX && |iv| == z * c.blockSize
    requires AllBlocks(blocks, s)
    ensures RingAfter(c, iv, z, |blocks|, ApplyBlocks(c, s, RingFromIv(iv, c.blockSize, z), blocks).0)
  {
    var r0 := RingFromIv(iv, c.blockSize, z);
    if blocks == [] {
      ModArith.DivModUnique(0, z, 0, 0);
    } else {
      var n := |blocks| - 1;
      var front, b := blocks[..n], blocks[n];
      assert blocks == front + [b];
      ApplyBlocksSnoc(c, s, r0, front, b);
      RingAfterBlocks(c, s, iv, z, front);
      StepRingAfter(c, s, iv, z, n, ApplyBlocks(c, s, r0, front).0, b);
    }
  }

  /**
   * The keystream of section 5.3 of GOST R 34.13-2015: started from IV blocks
   * `R_0 .. R_{Z-1}`, block `j` is XOR-ed with the first `S` bytes of
   * `E^(j/Z + 1)(R_{j mod Z})`.
   */
  lemma {:induction false} Keystream(c: Cipher, s: nat, iv: seq<Byte>, z: nat, blocks: seq<Block>)
    requires c.WellFormed() && 0 < s <= c.blockSize
    requires 0 < z <= ISIZE_MAX && |iv| == z * c.blockSize
    requires AllBlocks(blocks, s)
    ensures var res := ApplyBlocks(c, s, RingFromIv(iv, c.blockSize, z), blocks);
            forall j :: 0 <= j < |blocks| ==> res.1[j] == XorBytes(blocks[j], KeystreamBlock(c, iv, z, j)[..s])
  {
    if blocks != [] {
      var r0 := RingFromIv(iv, c.blockSize, z);
      var n := |blocks| - 1;
      var front, b := blocks[..n], blocks[n];
      assert blocks == front + [b];
      ApplyBlocksSnoc(c, s, r0, front, b);
      Keystream(c, s, iv, z, front);
      RingAfterBlocks(c, s, iv, z, front);
      var e1 := ApplyBlocks(c, s, r0, front);
      StepRingAfter(c, s, iv, z, n, e1.0, b);
      var res := ApplyBlocks(c, s, r0, blocks);
      forall j | 0 <= j < |blocks|
        ensures res.1[j] == XorBytes(blocks[j], KeystreamBlock(c, iv, z, j)[..s])
      {
        if j < n {
          assert res.1[j] == e1.1[j] && blocks[j] == front[j];
        }
      }
    }
  }

  /** `OfbCore<C, Z, S>`. */
  class OfbCore {
    const cipher: Cipher
    /** `S`: the number of keystream bytes used per block. */
    const s: nat
    const state: array<Block>
    var pos: nat

    ghost predicate Valid()
      reads this, state
    {
      cipher.WellFormed() && 0 < s <= cipher.blockSize && ValidChain(Chain(), cipher.blockSize)
    }

    /** The ring of IV blocks as a value. */
    function Chain(): Ring
      reads this, state
    {
      Ring(state[..], pos)
    }

    /** `inner_iv_init`: slot `i` takes IV block `i`, and `pos` starts at 0. */
    constructor (cipher: Cipher, s: nat, z: nat, iv: seq<Byte>)
      requires cipher.WellFormed() && 0 < s <= cipher.blockSize
      requires 0 < z <= ISIZE_MAX && |iv| == z * cipher.blockSize
      ensures Valid() && fresh(state) && this.cipher == cipher && this.s == s
      ensures state[..] == Chunks(iv, cipher.blockSize, z) && pos == 0
      ensures Chain() == RingFromIv(iv, cipher.blockSize, z)
    {
      var bs := cipher.blockSize;
      var st := new Block[z];
      for i := 0 to z
        invariant forall j :: 0 <= j < i ==> st[j] == Chunk(iv, bs, z, j)
      {
        ChunkInRange(i, z, bs);
        st[i] := iv[i * bs..(i + 1) * bs];
      }
      this.cipher := cipher;
      this.s := s;
      state := st;
      pos := 0;
      new;
      assert state[..] == Chunks(iv, bs, z);
    }

    /** `remaining_blocks`: OFB sets no limit on the number of blocks. */
    function RemainingBlocks(): (r: Option<nat>)
      ensures r.None?
    {
      None
    }

    /** `encrypt_block_inout_mut`. */
    method EncryptBlock(input: Block) returns (output: Block)
      requires Valid() && |input| == s
      modifies this, state
      ensures Valid()
      ensures state[..] == old(state[..])[old(pos) := cipher.encrypt(old(state[pos]))]
      ensures pos == (old(pos) + 1) % state.Length
      ensures output == XorBytes(input, state[old(pos)][..s])
      ensures (Chain(), output) == Step(cipher, s, old(Chain()), input)
    {
      var p := pos;
      state[p] := cipher.encrypt(state[p]);
      pos := WrappingAdd(pos, 1) % state.Length;
      output := XorBytes(input, state[p][..s]);
    }

    /** `decrypt_block_inout_mut`: the same transformation as encryption. */
    method DecryptBlock(input: Block) returns (output: Block)
      requires Valid() && |input| == s
      modifies this, state
      ensures Valid()
      ensures state[..] == old(state[..])[old(pos) := cipher.encrypt(old(state[pos]))]
      ensures pos == (old(pos) + 1) % state.Length
      ensures output == XorBytes(input, state[old(pos)][..s])
      ensures (Chain(), output) == Step(cipher, s, old(Chain()), input)
    {
      var p := pos;
      state[p] := cipher.encrypt(state[p]);
      pos := WrappingAdd(pos, 1) % state.Length;
      output := XorBytes(input, state[p][..s]);
    }

    /** `apply_keystream_blocks`: the single-block step applied to each block in order. */
    method ApplyKeystreamBlocks(blocks: seq<Block>) returns (outs: seq<Block>)
      requires Valid() && AllBlocks(blocks, s)
      modifies this, state
      ensures Valid()
      ensures (Chain(), outs) == ApplyBlocks(cipher, s, old(Chain()), blocks)
    {
      outs := [];
      for i := 0 to |blocks|
        invariant Valid()
        invariant (Chain(), outs) == ApplyBlocks(cipher, s, old(Chain()), blocks[..i])
      {
        ApplyBlocksSnoc(cipher, s, old(Chain()), blocks[..i], blocks[i]);
        assert blocks[..i + 1] == blocks[..i] + [blocks[i]];
        var p := pos;
        state[p] := cipher.encrypt(state[p]);
        pos := WrappingAdd(pos, 1) % state.Length;
        outs := outs + [XorBytes(blocks[i], state[p][..s])];
      }
      assert blocks[..|blocks|] == blocks;
    }

    /** `iv_state`: the `Z` slots laid end to end, starting at slot `pos`. */
    method IvState() returns (iv: seq<Byte>)
      requires Valid()
      ensures iv == Concat(Chain().Rotated())
      ensures |iv| == state.Length * cipher.blockSize
    {
      var z := state.Length;
      ghost var rotated := Chain().Rotated();
      iv := [];
      for i := 0 to z
        invariant iv == Concat(rotated[..i])
      {
        var n := WrappingAdd(pos, i) % z;
        assert rotated[..i + 1][..i] == rotated[..i];
        iv := iv + state[n];
      }
      assert rotated[..z] == rotated;
      ConcatLength(rotated, cipher.blockSize);
    }
  }
}
