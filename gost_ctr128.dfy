/** CTR mode of GOST R 34.13-2015 for ciphers with 128-bit blocks (Kuznyechik). */
module GostCtr128 {
  import opened Bytes
  import opened BlockCipher
  import opened Wrappers
  import GostCtr

  /** `Ctr128Core<C, S>`: a 64-bit nonce and a 64-bit block counter. */
  class Ctr128Core {
    const cipher: Cipher
    /** `S`: the number of keystream bytes used per block. */
    const s: nat
    const nonce: u64
    var ctr: u64

    ghost predicate Valid()
      reads this
    {
      GostCtr.ValidParams(cipher, s, 8)
    }

    /** `inner_iv_init`: the nonce is the big-endian value of the 8-byte IV, and the counter starts at 0. */
    constructor (cipher: Cipher, s: nat, iv: seq<Byte>)
      requires GostCtr.ValidParams(cipher, s, 8) && |iv| == 8
      ensures Valid() && this.cipher == cipher && this.s == s
      ensures nonce == BeU64(iv) && U64Be(nonce) == iv && ctr == 0
    {
      this.cipher := cipher;
      this.s := s;
      nonce := BeU64(iv);
      ctr := 0;
      U64BeRoundTrip(iv);
    }

    /**
     * `xor_block`: encrypts `nonce || ctr` (big-endian), increments the counter
     * with a wrapping add and XORs the first `S` bytes into the block.
     */
    method XorBlock(input: Block) returns (output: Block)
      requires Valid() && |input| == s
      modifies this
      ensures Valid()
      ensures ctr as int == (old(ctr) as int + 1) % 0x1_0000_0000_0000_0000
      ensures output == XorBytes(input, cipher.encrypt(U64Be(nonce) + U64Be(old(ctr)))[..s])
      ensures (ctr as nat, output) == GostCtr.Step(cipher, s, 8, nonce as nat, old(ctr) as nat, input)
    {
      Pow256Widths();
      var b := U64Be(nonce) + U64Be(ctr);
      b := cipher.encrypt(b);
      ctr := WrappingIncU64(ctr);
      output := XorBytes(input, b[..s]);
    }

    /** `encrypt_block_inout_mut`. */
    method EncryptBlock(input: Block) returns (output: Block)
      requires Valid() && |input| == s
      modifies this
      ensures Valid()
      ensures (ctr as nat, output) == GostCtr.Step(cipher, s, 8, nonce as nat, old(ctr) as nat, input)
    {
      output := XorBlock(input);
    }

    /** `decrypt_block_inout_mut`: the same transformation as encryption. */
    method DecryptBlock(input: Block) returns (output: Block)
      requires Valid() && |input| == s
      modifies this
      ensures Valid()
      ensures (ctr as nat, output) == GostCtr.Step(cipher, s, 8, nonce as nat, old(ctr) as nat, input)
    {
      output := XorBlock(input);
    }

    /** `apply_keystream_blocks`: `xor_block` on each block in order. */
    method ApplyKeystreamBlocks(blocks: seq<Block>) returns (outs: seq<Block>)
      requires Valid() && AllBlocks(blocks, s)
      modifies this
      ensures Valid()
      ensures (ctr as nat, outs) == GostCtr.ApplyBlocks(cipher, s, 8, nonce as nat, old(ctr) as nat, blocks)
    {
      Pow256Widths();
      outs := [];
      for i := 0 to |blocks|
        invariant (ctr as nat, outs) == GostCtr.ApplyBlocks(cipher, s, 8, nonce as nat, old(ctr) as nat, blocks[..i])
      {
        GostCtr.ApplyBlocksSnoc(cipher, s, 8, nonce as nat, old(ctr) as nat, blocks[..i], blocks[i]);
        assert blocks[..i + 1] == blocks[..i] + [blocks[i]];
        var out := XorBlock(blocks[i]);
        outs := outs + [out];
      }
      assert blocks[..|blocks|] == blocks;
    }

    /** `remaining_blocks`: `u64::MAX - ctr` converted to `usize`,
     * which on the model's 64-bit targets always succeeds. */
    function RemainingBlocks(): (r: Option<nat>)
      reads this
      ensures r == Some(0xFFFF_FFFF_FFFF_FFFF - ctr as nat)
      ensures r == GostCtr.Remaining(8, ctr as nat)
    {
      Pow256Widths();
      Some(0xFFFF_FFFF_FFFF_FFFF - ctr as nat)
    }

    /** `get_block_pos`: the counter of the next block. */
    function GetBlockPos(): (r: u64)
      reads this
      ensures r == ctr
    {
      ctr
    }

    /** `set_block_pos`: seeks by replacing the counter; the nonce is kept. */
    method SetBlockPos(pos: u64)
      requires Valid()
      modifies this
      ensures Valid() && ctr == pos
    {
      ctr := pos;
    }
  }
}
