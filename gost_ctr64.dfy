/** CTR mode of GOST R 34.13-2015 for ciphers with 64-bit blocks (Magma). */
module GostCtr64 {
  import opened Bytes
  import opened BlockCipher
  import opened Wrappers
  import GostCtr

  /** `Ctr64Core<C, S>`: a 32-bit nonce and a 32-bit block counter. */
  class Ctr64Core {
    const cipher: Cipher
    /** `S`: the number of keystream bytes used per block. */
    const s: nat
    const nonce: u32
    var ctr: u32

    ghost predicate Valid()
      reads this
    {
      GostCtr.ValidParams(cipher, s, 4)
    }

    /** `inner_iv_init`: the nonce is the big-endian value of the 4-byte IV, and the counter starts at 0. */
    constructor (cipher: Cipher, s: nat, iv: seq<Byte>)
      requires GostCtr.ValidParams(cipher, s, 4) && |iv| == 4
      ensures Valid() && this.cipher == cipher && this.s == s
      ensures nonce == BeU32(iv) && U32Be(nonce) == iv && ctr == 0
    {
      this.cipher := cipher;
      this.s := s;
      nonce := BeU32(iv);
      ctr := 0;
      U32BeRoundTrip(iv);
    }

    /**
     * `xor_block`: encrypts `nonce || ctr` (big-endian), increments the counter
     * with a wrapping add and XORs the first `S` bytes into the block.
     */
    method XorBlock(input: Block) returns (output: Block)
      requires Valid() && |input| == s
      modifies this
      ensures Valid()
      ensures ctr as int == (old(ctr) as int + 1) % 0x1_0000_0000
      ensures output == XorBytes(input, cipher.encrypt(U32Be(nonce) + U32Be(old(ctr)))[..s])
      ensures (ctr as nat, output) == GostCtr.Step(cipher, s, 4, nonce as nat, old(ctr) as nat, input)
    {
      Pow256Widths();
      var b := U32Be(nonce) + U32Be(ctr);
      b := cipher.encrypt(b);
      ctr := WrappingIncU32(ctr);
      output := XorBytes(input, b[..s]);
    }

    /** `encrypt_block_inout_mut`. */
    method EncryptBlock(input: Block) returns (output: Block)
      requires Valid() && |input| == s
      modifies this
      ensures Valid()
      ensures (ctr as nat, output) == GostCtr.Step(cipher, s, 4, nonce as nat, old(ctr) as nat, input)
    {
      output := XorBlock(input);
    }

    /** `decrypt_block_inout_mut`: the same transformation as encryption. */
    method DecryptBlock(input: Block) returns (output: Block)
      requires Valid() && |input| == s
      modifies this
      ensures Valid()
      ensures (ctr as nat, output) == GostCtr.Step(cipher, s, 4, nonce as nat, old(ctr) as nat, input)
    {
      output := XorBlock(input);
    }

    /** `apply_keystream_blocks`: `xor_block` on each block in order. */
    method ApplyKeystreamBlocks(blocks: seq<Block>) returns (outs: seq<Block>)
      requires Valid() && AllBlocks(blocks, s)
      modifies this
      ensures Valid()
      ensures (ctr as nat, outs) == GostCtr.ApplyBlocks(cipher, s, 4, nonce as nat, old(ctr) as nat, blocks)
    {
      Pow256Widths();
      outs := [];
      for i := 0 to |blocks|
        invariant (ctr as nat, outs) == GostCtr.ApplyBlocks(cipher, s, 4, nonce as nat, old(ctr) as nat, blocks[..i])
      {
        GostCtr.ApplyBlocksSnoc(cipher, s, 4, nonce as nat, old(ctr) as nat, blocks[..i], blocks[i]);
        assert blocks[..i + 1] == blocks[..i] + [blocks[i]];
        var out := XorBlock(blocks[i]);
        outs := outs + [out];
      }
      assert blocks[..|blocks|] == blocks;
    }

    /** `remaining_blocks`: `u32::MAX - ctr` converted to `usize`,
     * which on the model's 64-bit targets always succeeds. */
    function RemainingBlocks(): (r: Option<nat>)
      reads this
      ensures r == Some(0xFFFF_FFFF - ctr as nat)
      ensures r == GostCtr.Remaining(4, ctr as nat)
    {
      Pow256Widths();
      Some(0xFFFF_FFFF - ctr as nat)
    }

    /** `get_block_pos`: the counter of the next block. */
    function GetBlockPos(): (r: u32)
      reads this
      ensures r == ctr
    {
      ctr
    }

    /** `set_block_pos`: seeks by replacing the counter; the nonce is kept. */
    method SetBlockPos(pos: u32)
      requires Valid()
      modifies this
      ensures Valid() && ctr == pos
    {
      ctr := pos;
    }
  }
}
