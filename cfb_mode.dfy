/**
 * Cipher feedback (CFB) mode with full-block feedback, section 6.3 of NIST
 * SP 800-38A: the feedback register is one block; each ciphertext block is
 * `E(register) xor plaintext` and becomes the next register.
 */
module CfbMode {
  import opened Bytes
  import opened BlockCipher
  import GostCfb

  /** One block of encryption: the register becomes `E(iv) xor p`, which is also the output. */
  function EncryptStep(c: Cipher, iv: Block, p: Block): (res: (Block, Block))
    requires c.WellFormed() && |iv| == c.blockSize && |p| == c.blockSize
    ensures |res.0| == c.blockSize && res.0 == res.1
  {
    var next := XorBytes(c.encrypt(iv), p);
    (next, next)
  }

  /** One block of decryption: the output is `E(iv) xor ct`, and `ct` becomes the register. */
  function DecryptStep(c: Cipher, iv: Block, ct: Block): (res: (Block, Block))
    requires c.WellFormed() && |iv| == c.blockSize && |ct| == c.blockSize
    ensures res.0 == ct && |res.1| == c.blockSize
  {
    (ct, XorBytes(c.encrypt(iv), ct))
  }

  /** A message encrypted block after block: the final register and the ciphertext blocks. */
  function EncryptAll(c: Cipher, iv: Block, ps: seq<Block>): (res: (Block, seq<Block>))
    requires c.WellFormed() && |iv| == c.blockSize && AllBlocks(ps, c.blockSize)
    ensures |res.0| == c.blockSize && |res.1| == |ps| && AllBlocks(res.1, c.blockSize)
    decreases |ps|
  {
    if ps == [] then (iv, [])
    else
      var prev := EncryptAll(c, iv, ps[..|ps| - 1]);
      var last := EncryptStep(c, prev.0, ps[|ps| - 1]);
      (last.0, prev.1 + [last.1])
  }

  /** A ciphertext decrypted block after block: the final register and the plaintext blocks. */
  function DecryptAll(c: Cipher, iv: Block, cs: seq<Block>): (res: (Block, seq<Block>))
    requires c.WellFormed() && |iv| == c.blockSize && AllBlocks(cs, c.blockSize)
    ensures |res.0| == c.blockSize && |res.1| == |cs| && AllBlocks(res.1, c.blockSize)
    decreases |cs|
  {
    if cs == [] then (iv, [])
    else
      var prev := DecryptAll(c, iv, cs[..|cs| - 1]);
      var last := DecryptStep(c, prev.0, cs[|cs| - 1]);
      (last.0, prev.1 + [last.1])
  }

  lemma EncryptAllSnoc(c: Cipher, iv: Block, ps: seq<Block>, p: Block)
    requires c.WellFormed() && |iv| == c.blockSize && AllBlocks(ps, c.blockSize) && |p| == c.blockSize
    ensures AllBlocks(ps + [p], c.blockSize)
    ensures var prev := EncryptAll(c, iv, ps);
            var last := EncryptStep(c, prev.0, p);
            EncryptAll(c, iv, ps + [p]) == (last.0, prev.1 + [last.1])
  {
    assert (ps + [p])[..|ps|] == ps;
  }

  lemma DecryptAllSnoc(c: Cipher, iv: Block, cs: seq<Block>, ct: Block)
    requires c.WellFormed() && |iv| == c.blockSize && AllBlocks(cs, c.blockSize) && |ct| == c.blockSize
    ensures AllBlocks(cs + [ct], c.blockSize)
    ensures var prev := DecryptAll(c, iv, cs);
            var last := DecryptStep(c, prev.0, ct);
            DecryptAll(c, iv, cs + [ct]) == (last.0, prev.1 + [last.1])
  {
    assert (cs + [ct])[..|cs|] == cs;
  }

  /**
   * Decrypting the ciphertext from the same IV returns the plaintext, and
   * the decryptor's register ends equal to the encryptor's. Only the forward
   * direction of the cipher is used.
   */
  lemma {:induction false} RoundTrip(c: Cipher, iv: Block, ps: seq<Block>)
    requires c.WellFormed() && |iv| == c.blockSize && AllBlocks(ps, c.blockSize)
    ensures DecryptAll(c, iv, EncryptAll(c, iv, ps).1) == (EncryptAll(c, iv, ps).0, ps)
  {
    if ps != [] {
      var n := |ps|;
      var front, p := ps[..n - 1], ps[n - 1];
      assert ps == front + [p];
      var e1 := EncryptAll(c, iv, front);
      var e2 := EncryptStep(c, e1.0, p);
      EncryptAllSnoc(c, iv, front, p);
      RoundTrip(c, iv, front);
      DecryptAllSnoc(c, iv, e1.1, e2.1);
      XorBytesCancel(p, c.encrypt(e1.0));
      XorBytesCommute(c.encrypt(e1.0), p);
      XorBytesCommute(c.encrypt(e1.0), e2.1);
    }
  }

  /** The register a block is decrypted under: the IV for the first block, otherwise the ciphertext before it. */
  function Prev(iv: Block, cs: seq<Block>, j: nat): Block
    requires j <= |cs|
  {
    if j == 0 then iv else cs[j - 1]
  }

  /**
   * Each plaintext block depends only on its own ciphertext block and the one
   * before it, and the final register is the last ciphertext block: what lets
   * the batched decryption work on all blocks at once.
   */
  lemma {:induction false} DecryptAllAt(c: Cipher, iv: Block, cs: seq<Block>)
    requires c.WellFormed() && |iv| == c.blockSize && AllBlocks(cs, c.blockSize)
    ensures DecryptAll(c, iv, cs).0 == Prev(iv, cs, |cs|)
    ensures forall j :: 0 <= j < |cs| ==>
              DecryptAll(c, iv, cs).1[j] == XorBytes(c.encrypt(Prev(iv, cs, j)), cs[j])
  {
    if cs != [] {
      var n := |cs|;
      var front := cs[..n - 1];
      DecryptAllAt(c, iv, front);
      forall j | 0 <= j < n
        ensures Prev(iv, front + [cs[n - 1]], j) == Prev(iv, cs, j)
      {
        assert front + [cs[n - 1]] == cs;
      }
      assert front + [cs[n - 1]] == cs;
    }
  }

  /** Outputs that agree with `DecryptAllAt` block by block are the outputs of `DecryptAll`. */
  lemma DecryptAllFromBlocks(c: Cipher, iv: Block, cs: seq<Block>, outs: seq<Block>)
    requires c.WellFormed() && |iv| == c.blockSize && AllBlocks(cs, c.blockSize) && |cs| > 0
    requires |outs| == |cs|
    requires forall j :: 0 <= j < |cs| ==> outs[j] == XorBytes(c.encrypt(Prev(iv, cs, j)), cs[j])
    ensures DecryptAll(c, iv, cs) == (cs[|cs| - 1], outs)
  {
    var d := DecryptAll(c, iv, cs);
    DecryptAllAt(c, iv, cs);
    forall j | 0 <= j < |cs|
      ensures d.1[j] == outs[j]
    {
    }
    assert d.1 == outs;
  }

  /**
   * With register size and feedback width both equal to the block size, the
   * GOST R 34.13-2015 CFB of `GostCfb` encrypts exactly as this mode does.
   */
  lemma {:induction false} AgreesWithGostCfb(c: Cipher, iv: Block, ps: seq<Block>)
    requires c.WellFormed() && |iv| == c.blockSize && AllBlocks(ps, c.blockSize)
    ensures GostCfb.ValidParams(c, c.blockSize, |iv|)
    ensures GostCfb.EncryptBlocks(c, c.blockSize, iv, ps) == EncryptAll(c, iv, ps)
  {
    if ps != [] {
      var n := |ps|;
      var front, p := ps[..n - 1], ps[n - 1];
      AgreesWithGostCfb(c, iv, front);
      var reg := EncryptAll(c, iv, front).0;
      var bs := c.blockSize;
      assert reg[..bs] == reg && reg[bs..] == [];
      assert c.encrypt(reg)[..bs] == c.encrypt(reg);
      XorBytesCommute(p, c.encrypt(reg));
    }
  }

  /** Decryption agrees in the same way. */
  lemma {:induction false} DecryptAgreesWithGostCfb(c: Cipher, iv: Block, cs: seq<Block>)
    requires c.WellFormed() && |iv| == c.blockSize && AllBlocks(cs, c.blockSize)
    ensures GostCfb.ValidParams(c, c.blockSize, |iv|)
    ensures GostCfb.DecryptBlocks(c, c.blockSize, iv, cs) == DecryptAll(c, iv, cs)
  {
    if cs != [] {
      var n := |cs|;
      var front, ct := cs[..n - 1], cs[n - 1];
      DecryptAgreesWithGostCfb(c, iv, front);
      var reg := DecryptAll(c, iv, front).0;
      var bs := c.blockSize;
      assert reg[..bs] == reg && reg[bs..] == [];
      assert c.encrypt(reg)[..bs] == c.encrypt(reg);
      XorBytesCommute(ct, c.encrypt(reg));
    }
  }

  /**
   * `xor(out, buf)`: the lengths must match (otherwise the source panics, here
   * `ok` is false and `out` is left alone); then `buf` is XORed into `out`.
   */
  method Xor(out: array<Byte>, buf: seq<Byte>) returns (ok: bool)
    modifies out
    ensures ok <==> out.Length == |buf|
    ensures ok ==> out[..] == XorBytes(old(out[..]), buf)
    ensures !ok ==> out[..] == old(out[..])
  {
    if out.Length != |buf| {
      return false;
    }
    for i := 0 to out.Length
      invariant forall j :: 0 <= j < i ==> out[j] == old(out[j]) ^ buf[j]
      invariant forall j :: i <= j < out.Length ==> out[j] == old(out[j])
    {
      out[i] := out[i] ^ buf[i];
    }
    return true;
  }

  /** `Cfb<C>`: the cipher and a one-block feedback register. */
  class Cfb {
    const cipher: Cipher
    const iv: array<Byte>

    ghost predicate Valid()
      reads this
    {
      cipher.WellFormed() && iv.Length == cipher.blockSize
    }

    /** `inner_iv_init`: the register is a copy of the IV. */
    constructor (cipher: Cipher, iv: Block)
      requires cipher.WellFormed() && |iv| == cipher.blockSize
      ensures Valid() && this.cipher == cipher && fresh(this.iv) && this.iv[..] == iv
    {
      this.cipher := cipher;
      this.iv := new Byte[|iv|](i requires 0 <= i < |iv| => iv[i]);
    }

    /** `encrypt_block_inout_mut`: the register is encrypted in place, the input XORed in, and the result output. */
    method EncryptBlock(input: Block) returns (output: Block)
      requires Valid() && |input| == cipher.blockSize
      modifies iv
      ensures Valid()
      ensures iv[..] == XorBytes(cipher.encrypt(old(iv[..])), input) && output == iv[..]
      ensures (iv[..], output) == EncryptStep(cipher, old(iv[..]), input)
    {
      var e := cipher.encrypt(iv[..]);
      forall k | 0 <= k < iv.Length {
        iv[k] := e[k];
      }
      assert iv[..] == e;
      var ok := Xor(iv, input);
      output := iv[..];
    }

    /** `decrypt_block_inout_mut`: the output is `E(iv) xor input`, and the input becomes the register. */
    method DecryptBlock(input: Block) returns (output: Block)
      requires Valid() && |input| == cipher.blockSize
      modifies iv
      ensures Valid()
      ensures output == XorBytes(cipher.encrypt(old(iv[..])), input) && iv[..] == input
      ensures (iv[..], output) == DecryptStep(cipher, old(iv[..]), input)
    {
      var e := cipher.encrypt(iv[..]);
      var t := new Byte[|e|](i requires 0 <= i < |e| => e[i]);
      assert t[..] == e;
      var ok := Xor(t, input);
      forall k | 0 <= k < iv.Length {
        iv[k] := input[k];
      }
      assert iv[..] == input;
      output := t[..];
    }

    /**
     * `decrypt_blocks_with_pre_mut`: the cipher first encrypts every input
     * block into a temporary buffer; then block `i` is XORed into the running
     * `enc_iv` and swapped with `tmp[i]`, so `tmp[i]` ends as the plaintext and
     * `enc_iv` as `E(input[i])`. The register becomes the last input block.
     * The outputs and the register are those of decrypting one block at a time.
     */
    method DecryptBlocks(blocks: seq<Block>) returns (outs: seq<Block>)
      requires Valid() && |blocks| > 0 && AllBlocks(blocks, cipher.blockSize)
      modifies iv
      ensures Valid()
      ensures iv[..] == blocks[|blocks| - 1]
      ensures (iv[..], outs) == DecryptAll(cipher, old(iv[..]), blocks)
    {
      var n := |blocks|;
      var iv0 := iv[..];
      var encIv := cipher.encrypt(iv0);
      var tmp := new Block[n](i requires 0 <= i < n => cipher.encrypt(blocks[i]));
      for i := 0 to n
        invariant encIv == cipher.encrypt(Prev(iv0, blocks, i))
        invariant forall j :: 0 <= j < i ==> tmp[j] == XorBytes(cipher.encrypt(Prev(iv0, blocks, j)), blocks[j])
        invariant forall j :: i <= j < n ==> tmp[j] == cipher.encrypt(blocks[j])
      {
        ghost var before := tmp[..];
        encIv := XorBytes(encIv, blocks[i]);
        assert encIv == XorBytes(cipher.encrypt(Prev(iv0, blocks, i)), blocks[i]);
        tmp[i], encIv := encIv, tmp[i];
        assert tmp[..] == before[i := tmp[i]];
      }
      var last := blocks[n - 1];
      forall k | 0 <= k < iv.Length {
        iv[k] := last[k];
      }
      assert iv[..] == last;
      outs := tmp[..];
      DecryptAllFromBlocks(cipher, iv0, blocks, outs);
    }

    /** `iv_state`: the current register. */
    method IvState() returns (r: Block)
      requires Valid()
      ensures r == iv[..] && |r| == cipher.blockSize
    {
      r := iv[..];
    }
  }
}
