/**
 * The block cipher that every mode of operation is parameterised by, kept
 * abstract: an instance already holds its key, and is a pair of total
 * functions on blocks of `blockSize` bytes.
 */
module BlockCipher {
  import opened Bytes

  type Block = seq<Byte>

  datatype Cipher = Cipher(blockSize: nat, encrypt: Block -> Block, decrypt: Block -> Block) {

    /** Both directions map blocks to blocks (the source's fixed-size block type). */
    ghost predicate WellFormed() {
      && blockSize > 0
      && (forall b: Block :: |b| == blockSize ==> |encrypt(b)| == blockSize)
      && (forall b: Block :: |b| == blockSize ==> |decrypt(b)| == blockSize)
    }

    /** Decryption undoes encryption: D(k, E(k, b)) == b. */
    ghost predicate Invertible() {
      && WellFormed()
      && forall b: Block :: |b| == blockSize ==> decrypt(encrypt(b)) == b
    }
  }

  /** Every element of `blocks` is one block of `bs` bytes. */
  ghost predicate AllBlocks(blocks: seq<Block>, bs: nat) {
    forall i :: 0 <= i < |blocks| ==> |blocks[i]| == bs
  }

  lemma ChunkInRange(i: nat, z: nat, bs: nat)
    requires i < z
    ensures i * bs + bs == (i + 1) * bs <= z * bs
  {
    assert z * bs == (i + 1) * bs + (z - i - 1) * bs;
  }

  /** Block `i` of a byte string of `z` blocks (`chunks_exact(bs)`). */
  function Chunk(iv: seq<Byte>, bs: nat, z: nat, i: nat): (r: Block)
    requires |iv| == z * bs && i < z
    ensures |r| == bs
  {
    ChunkInRange(i, z, bs);
    iv[i * bs..(i + 1) * bs]
  }

  /** `iv` cut into `z` consecutive blocks of `bs` bytes. */
  function Chunks(iv: seq<Byte>, bs: nat, z: nat): (r: seq<Block>)
    requires |iv| == z * bs
    ensures |r| == z && AllBlocks(r, bs)
  {
    seq(z, i requires 0 <= i < z => Chunk(iv, bs, z, i))
  }

  /** The blocks laid end to end. */
  function Concat(blocks: seq<Block>): seq<Byte> {
    if blocks == [] then [] else Concat(blocks[..|blocks| - 1]) + blocks[|blocks| - 1]
  }

  lemma ConcatSnoc(blocks: seq<Block>, b: Block)
    ensures Concat(blocks + [b]) == Concat(blocks) + b
  {
    assert (blocks + [b])[..|blocks|] == blocks;
  }

  lemma {:induction false} ConcatLength(blocks: seq<Block>, bs: nat)
    requires AllBlocks(blocks, bs)
    ensures |Concat(blocks)| == |blocks| * bs
  {
    if blocks != [] {
      var n := |blocks|;
      ConcatLength(blocks[..n - 1], bs);
      assert n * bs == (n - 1) * bs + bs;
    }
  }

  /** The first `z - 1` blocks of a string are the blocks of its first `z - 1` blocks' bytes. */
  lemma ChunksPrefix(iv: seq<Byte>, bs: nat, z: nat)
    requires 0 < z && |iv| == z * bs
    ensures (z - 1) * bs <= |iv|
    ensures Chunks(iv, bs, z)[..z - 1] == Chunks(iv[..(z - 1) * bs], bs, z - 1)
  {
    ChunkInRange(z - 1, z, bs);
    var front := iv[..(z - 1) * bs];
    forall i | 0 <= i < z - 1
      ensures Chunks(iv, bs, z)[i] == Chunk(front, bs, z - 1, i)
    {
      ChunkInRange(i, z - 1, bs);
    }
  }

  /** Cutting a byte string into blocks and laying them end to end gives it back. */
  lemma {:induction false} ConcatChunks(iv: seq<Byte>, bs: nat, z: nat)
    requires |iv| == z * bs
    ensures Concat(Chunks(iv, bs, z)) == iv
  {
    if z > 0 {
      var cs := Chunks(iv, bs, z);
      ChunkInRange(z - 1, z, bs);
      var front := iv[..(z - 1) * bs];
      ChunksPrefix(iv, bs, z);
      ConcatChunks(front, bs, z - 1);
      assert iv == front + iv[(z - 1) * bs..z * bs];
    }
  }

  /**
   * A ring of `Z` IV blocks and the index of the slot the next block uses
   * (the chaining state of the GOST CBC and OFB modes).
   */
  datatype Ring = Ring(slots: seq<Block>, pos: nat) {
    ghost predicate Valid(bs: nat) {
      && 0 < |slots|
      && pos < |slots|
      && AllBlocks(slots, bs)
    }

    /** The slots read starting at `pos` and wrapping round. */
    function Rotated(): (r: seq<Block>)
      requires pos < |slots|
      ensures |r| == |slots|
    {
      seq(|slots|, i requires 0 <= i < |slots| => slots[(pos + i) % |slots|])
    }
  }

  /** The ring the source's `inner_iv_init` builds: slot `i` is IV block `i`, and `pos` is 0. */
  function RingFromIv(iv: seq<Byte>, bs: nat, z: nat): (r: Ring)
    requires 0 < z && |iv| == z * bs
    ensures r.Valid(bs) && r.pos == 0 && |r.slots| == z
    ensures Concat(r.slots) == iv
  {
    ConcatChunks(iv, bs, z);
    Ring(Chunks(iv, bs, z), 0)
  }

  /** Right after initialisation the rotated ring reads back as the IV. */
  lemma RingFromIvRotated(iv: seq<Byte>, bs: nat, z: nat)
    requires 0 < z && |iv| == z * bs
    ensures Concat(RingFromIv(iv, bs, z).Rotated()) == iv
  {
    var r := RingFromIv(iv, bs, z);
    forall i | 0 <= i < z
      ensures r.Rotated()[i] == r.slots[i]
    {
      assert (0 + i) % z == i;
    }
    assert r.Rotated() == r.slots;
  }
}
