/**
 * Cipher Feedback (CFB) mode as defined in GOST R 34.13-2015, section 5.5:
 * an `M`-byte shift register whose first block is encrypted for the
 * keystream, of which `S` bytes are used; the ciphertext is shifted in.
 */
module GostCfb {
  import opened Bytes
  import opened BlockCipher

  /** The parameters' bounds in the source: `0 < S <= block size <= M`. */
  ghost predicate ValidParams(c: Cipher, s: nat, m: nat) {
    c.WellFormed() && 0 < s <= c.blockSize <= m
  }

  /** The `s` keystream bytes the register yields: the first `s` bytes of `E(reg[..bs])`. */
  function Keystream(c: Cipher, s: nat, reg: seq<Byte>): (r: seq<Byte>)
    requires c.WellFormed() && s <= c.blockSize <= |reg|
    ensures |r| == s
  {
    c.encrypt(reg[..c.blockSize])[..s]
  }

  /** One block of encryption: the output is the data XOR the keystream, and it is shifted into the register. */
  function EncryptStep(c: Cipher, s: nat, reg: seq<Byte>, p: Block): (res: (seq<Byte>, Block))
    requires ValidParams(c, s, |reg|) && |p| == s
    ensures |res.0| == |reg| && |res.1| == s
    ensures res.0[|reg| - s..] == res.1
  {
    var out := XorBytes(p, Keystream(c, s, reg));
    (reg[s..] + out, out)
  }

  /** One block of decryption: the same keystream, but the incoming ciphertext is shifted in. */
  function DecryptStep(c: Cipher, s: nat, reg: seq<Byte>, ct: Block): (res: (seq<Byte>, Block))
    requires ValidParams(c, s, |reg|) && |ct| == s
    ensures |res.0| == |reg| && |res.1| == s
    ensures res.0[|reg| - s..] == ct
  {
    var out := XorBytes(ct, Keystream(c, s, reg));
    (reg[s..] + ct, out)
  }

  /** A message encrypted block after block: the final register and the ciphertext blocks. */
  function EncryptBlocks(c: Cipher, s: nat, reg: seq<Byte>, ps: seq<Block>): (res: (seq<Byte>, seq<Block>))
    requires ValidParams(c, s, |reg|) && AllBlocks(ps, s)
    ensures |res.0| == |reg| && |res.1| == |ps| && AllBlocks(res.1, s)
    decreases |ps|
  {
    if ps == [] then (reg, [])
    else
      var prev := EncryptBlocks(c, s, reg, ps[..|ps| - 1]);
      var last := EncryptStep(c, s, prev.0, ps[|ps| - 1]);
      (last.0, prev.1 + [last.1])
  }

  /** A ciphertext decrypted block after block: the final register and the plaintext blocks. */
  function DecryptBlocks(c: Cipher, s: nat, reg: seq<Byte>, cs: seq<Block>): (res: (seq<Byte>, seq<Block>))
    requires ValidParams(c, s, |reg|) && AllBlocks(cs, s)
    ensures |res.0| == |reg| && |res.1| == |cs| && AllBlocks(res.1, s)
    decreases |cs|
  {
    if cs == [] then (reg, [])
    else
      var prev := DecryptBlocks(c, s, reg, cs[..|cs| - 1]);
      var last := DecryptStep(c, s, prev.0, cs[|cs| - 1]);
      (last.0, prev.1 + [last.1])
  }

  lemma EncryptBlocksSnoc(c: Cipher, s: nat, reg: seq<Byte>, ps: seq<Block>, p: Block)
    requires ValidParams(c, s, |reg|) && AllBlocks(ps, s) && |p| == s
    ensures AllBlocks(ps + [p], s)
    ensures var prev := EncryptBlocks(c, s, reg, ps);
            var last := EncryptStep(c, s, prev.0, p);
            EncryptBlocks(c, s, reg, ps + [p]) == (last.0, prev.1 + [last.1])
  {
    assert (ps + [p])[..|ps|] == ps;
  }

  lemma DecryptBlocksSnoc(c: Cipher, s: nat, reg: seq<Byte>, cs: seq<Block>, ct: Block)
    requires ValidParams(c, s, |reg|) && AllBlocks(cs, s) && |ct| == s
    ensures AllBlocks(cs + [ct], s)
    ensures var prev := DecryptBlocks(c, s, reg, cs);
            var last := DecryptStep(c, s, prev.0, ct);
            DecryptBlocks(c, s, reg, cs + [ct]) == (last.0, prev.1 + [last.1])
  {
    assert (cs + [ct])[..|cs|] == cs;
  }

  /**
   * Decrypting the ciphertext from the same IV returns the plaintext, and the
   * decryptor's register ends where the encryptor's did. Only the forward
   * direction of the cipher is used, so no inverse is needed.
   */
  lemma {:induction false} RoundTrip(c: Cipher, s: nat, reg: seq<Byte>, ps: seq<Block>)
    requires ValidParams(c, s, |reg|) && AllBlocks(ps, s)
    ensures DecryptBlocks(c, s, reg, EncryptBlocks(c, s, reg, ps).1) == (EncryptBlocks(c, s, reg, ps).0, ps)
  {
    if ps != [] {
      var n := |ps|;
      var front, p := ps[..n - 1], ps[n - 1];
      assert ps == front + [p];
      var e1 := EncryptBlocks(c, s, reg, front);
      var e2 := EncryptStep(c, s, e1.0, p);
      EncryptBlocksSnoc(c, s, reg, front, p);
      RoundTrip(c, s, reg, front);
      DecryptBlocksSnoc(c, s, reg, e1.1, e2.1);
      XorBytesCancel(p, Keystream(c, s, e1.0));
    }
  }

  /** One more block shifted in keeps the register the suffix of the IV and the ciphertext. */
  lemma SuffixStep(reg: seq<Byte>, cs: seq<Block>, s: nat, r: seq<Byte>, out: Block)
    requires |Concat(cs)| == |cs| * s && |reg| >= s && |out| == s
    requires r == (reg + Concat(cs))[|cs| * s..]
    ensures |Concat(cs + [out])| == (|cs| + 1) * s
    ensures r[s..] + out == (reg + Concat(cs + [out]))[(|cs| + 1) * s..]
  {
    ConcatSnoc(cs, out);
    var x := reg + Concat(cs);
    assert reg + Concat(cs + [out]) == x + out;
    assert (|cs| + 1) * s == |cs| * s + s;
  }

  /**
   * The register is always the last `M` bytes of the IV followed by the
   * ciphertext so far (section 5.5: the register is shifted by `S` and
   * refilled with the ciphertext block).
   */
  lemma {:induction false} RegisterIsSuffix(c: Cipher, s: nat, reg: seq<Byte>, ps: seq<Block>)
    requires ValidParams(c, s, |reg|) && AllBlocks(ps, s)
    ensures var e := EncryptBlocks(c, s, reg, ps);
            |Concat(e.1)| == |ps| * s && e.0 == (reg + Concat(e.1))[|ps| * s..]
  {
    if ps == [] {
      assert EncryptBlocks(c, s, reg, ps) == (reg, []);
    } else {
      var n := |ps| - 1;
      var front, p := ps[..n], ps[n];
      assert ps == front + [p];
      var e1 := EncryptBlocks(c, s, reg, front);
      var e2 := EncryptStep(c, s, e1.0, p);
      EncryptBlocksSnoc(c, s, reg, front, p);
      RegisterIsSuffix(c, s, reg, front);
      SuffixStep(reg, e1.1, s, e1.0, e2.1);
    }
  }

  /** `Cfb<C, M, S>`. */
  class Cfb {
    const cipher: Cipher
    /** `S`: the number of keystream bytes used per block. */
    const s: nat
    /** `M`: the length of the register (the IV size). */
    const m: nat
    var iv: seq<Byte>

    ghost predicate Valid()
      reads this
    {
      ValidParams(cipher, s, m) && |iv| == m
    }

    /** `inner_iv_init`: the register starts as a copy of the IV. */
    constructor (cipher: Cipher, s: nat, iv: seq<Byte>)
      requires ValidParams(cipher, s, |iv|)
      ensures Valid() && this.cipher == cipher && this.s == s && m == |iv| && this.iv == iv
    {
      this.cipher := cipher;
      this.s := s;
      m := |iv|;
      this.iv := iv;
    }

    /** `encrypt_block_inout_mut`. */
    method EncryptBlock(input: Block) returns (output: Block)
      requires Valid() && |input| == s
      modifies this
      ensures Valid()
      ensures output == XorBytes(input, Keystream(cipher, s, old(iv)))
      ensures iv == old(iv)[s..] + output
      ensures (iv, output) == EncryptStep(cipher, s, old(iv), input)
    {
      var bs := cipher.blockSize;
      var b := cipher.encrypt(iv[..bs]);
      output := XorBytes(input, b[..s]);
      var n := m - s;
      var newIv := iv[s..] + output;
      assert |newIv| == n + s;
      iv := newIv;
    }

    /** `decrypt_block_inout_mut`. */
    method DecryptBlock(input: Block) returns (output: Block)
      requires Valid() && |input| == s
      modifies this
      ensures Valid()
      ensures output == XorBytes(input, Keystream(cipher, s, old(iv)))
      ensures iv == old(iv)[s..] + input
      ensures (iv, output) == DecryptStep(cipher, s, old(iv), input)
    {
      var bs := cipher.blockSize;
      var b := cipher.encrypt(iv[..bs]);
      var n := m - s;
      var newIv := iv[s..] + input;
      assert |newIv| == n + s;
      iv := newIv;
      output := XorBytes(input, b[..s]);
    }

    /** `iv_state`: the current register, which `RegisterIsSuffix` describes. */
    method IvState() returns (r: seq<Byte>)
      requires Valid()
      ensures r == iv && |r| == m
    {
      r := iv;
    }
  }
}
