/**
 * Cipher Block Chaining (CBC) mode as defined in GOST R 34.13-2015,
 * section 5.4: the IV is `Z` blocks long, and block `i` of the message is
 * chained to the ciphertext `Z` blocks before it (or to IV block `i`).
 */
module GostCbc {
  import opened Bytes
  import opened BlockCipher
  import GostUtils
  import ModArith

  /** The chaining state within the source's type bounds: 0 < Z <= 255 slots. */
  ghost predicate ValidChain(r: Ring, bs: nat) {
    r.Valid(bs) && |r.slots| <= 255
  }

  /** One block of encryption: C = E(P xor slot[pos]); the slot takes C and `pos` moves on. */
  function EncryptStep(c: Cipher, r: Ring, p: Block): (res: (Ring, Block))
    requires c.WellFormed() && ValidChain(r, c.blockSize) && |p| == c.blockSize
    ensures ValidChain(res.0, c.blockSize) && |res.1| == c.blockSize
  {
    var out := c.encrypt(XorBytes(p, r.slots[r.pos]));
    (Ring(r.slots[r.pos := out], (r.pos + 1) % |r.slots|), out)
  }

  /** One block of decryption: P = D(C) xor slot[pos]; the slot takes C and `pos` moves on. */
  function DecryptStep(c: Cipher, r: Ring, ct: Block): (res: (Ring, Block))
    requires c.WellFormed() && ValidChain(r, c.blockSize) && |ct| == c.blockSize
    ensures ValidChain(res.0, c.blockSize) && |res.1| == c.blockSize
  {
    var out := XorBytes(c.decrypt(ct), r.slots[r.pos]);
    (Ring(r.slots[r.pos := ct], (r.pos + 1) % |r.slots|), out)
  }

  /** A message encrypted block after block: the final chain and the ciphertext blocks. */
  function EncryptBlocks(c: Cipher, r: Ring, ps: seq<Block>): (res: (Ring, seq<Block>))
    requires c.WellFormed() && ValidChain(r, c.blockSize) && AllBlocks(ps, c.blockSize)
    ensures ValidChain(res.0, c.blockSize)
    ensures |res.1| == |ps| && AllBlocks(res.1, c.blockSize)
    decreases |ps|
  {
    if ps == [] then (r, [])
    else
      var prev := EncryptBlocks(c, r, ps[..|ps| - 1]);
      var last := EncryptStep(c, prev.0, ps[|ps| - 1]);
      (last.0, prev.1 + [last.1])
  }

  /** A ciphertext decrypted block after block: the final chain and the plaintext blocks. */
  function DecryptBlocks(c: Cipher, r: Ring, cs: seq<Block>): (res: (Ring, seq<Block>))
    requires c.WellFormed() && ValidChain(r, c.blockSize) && AllBlocks(cs, c.blockSize)
    ensures ValidChain(res.0, c.blockSize)
    ensures |res.1| == |cs| && AllBlocks(res.1, c.blockSize)
    decreases |cs|
  {
    if cs == [] then (r, [])
    else
      var prev := DecryptBlocks(c, r, cs[..|cs| - 1]);
      var last := DecryptStep(c, prev.0, cs[|cs| - 1]);
      (last.0, prev.1 + [last.1])
  }

  /** Decrypting a block from the state it was encrypted in gives the plaintext and the same next state. */
  lemma DecryptStepUndoesEncryptStep(c: Cipher, r: Ring, p: Block)
    requires c.Invertible() && ValidChain(r, c.blockSize) && |p| == c.blockSize
    ensures DecryptStep(c, r, EncryptStep(c, r, p).1) == (EncryptStep(c, r, p).0, p)
  {
    XorBytesCancel(p, r.slots[r.pos]);
  }

  lemma EncryptBlocksSnoc(c: Cipher, r: Ring, ps: seq<Block>, p: Block)
    requires c.WellFormed() && ValidChain(r, c.blockSize) && AllBlocks(ps, c.blockSize) && |p| == c.blockSize
    ensures AllBlocks(ps + [p], c.blockSize)
    ensures var prev := EncryptBlocks(c, r, ps);
            var last := EncryptStep(c, prev.0, p);
            EncryptBlocks(c, r, ps + [p]) == (last.0, prev.1 + [last.1])
  {
    assert (ps + [p])[..|ps|] == ps;
  }

  lemma DecryptBlocksSnoc(c: Cipher, r: Ring, cs: seq<Block>, ct: Block)
    requires c.WellFormed() && ValidChain(r, c.blockSize) && AllBlocks(cs, c.blockSize) && |ct| == c.blockSize
    ensures AllBlocks(cs + [ct], c.blockSize)
    ensures var prev := DecryptBlocks(c, r, cs);
            var last := DecryptStep(c, prev.0, ct);
            DecryptBlocks(c, r, cs + [ct]) == (last.0, prev.1 + [last.1])
  {
    assert (cs + [ct])[..|cs|] == cs;
  }

  /**
   * An encryptor and a decryptor initialised with the same IV stay in the same
   * state, and decrypting the encryptor's output returns the plaintext.
   */
  lemma {:induction false} RoundTrip(c: Cipher, r: Ring, ps: seq<Block>)
    requires c.Invertible() && ValidChain(r, c.blockSize) && AllBlocks(ps, c.blockSize)
    ensures DecryptBlocks(c, r, EncryptBlocks(c, r, ps).1) == (EncryptBlocks(c, r, ps).0, ps)
  {
    if ps != [] {
      var n := |ps|;
      var front, p := ps[..n - 1], ps[n - 1];
      assert ps == front + [p];
      var e1 := EncryptBlocks(c, r, front);
      var e2 := EncryptStep(c, e1.0, p);
      EncryptBlocksSnoc(c, r, front, p);
      RoundTrip(c, r, front);
      DecryptBlocksSnoc(c, r, e1.1, e2.1);
      DecryptStepUndoesEncryptStep(c, e1.0, p);
    }
  }

  /** After `n` blocks the next slot used is `(pos + n) mod Z`: slot `i` chains blocks `i`, `i + Z`, ... */
  lemma {:induction false} PositionAfterBlocks(c: Cipher, r: Ring, ps: seq<Block>)
    requires c.WellFormed() && ValidChain(r, c.blockSize) && AllBlocks(ps, c.blockSize)
    ensures EncryptBlocks(c, r, ps).0.pos == (r.pos + |ps|) % |r.slots|
    ensures |EncryptBlocks(c, r, ps).0.slots| == |r.slots|
  {
    if ps != [] {
      var n, z := |ps|, |r.slots|;
      var e1 := EncryptBlocks(c, r, ps[..n - 1]);
      PositionAfterBlocks(c, r, ps[..n - 1]);
      assert EncryptBlocks(c, r, ps).0 == EncryptStep(c, e1.0, ps[n - 1]).0;
      ModArith.ModSucc(r.pos + n - 1, z);
    } else {
      ModArith.ModUnique(r.pos, |r.slots|, 0, r.pos);
    }
  }

  /** `CbcEncrypt<C, Z>`. */
  class CbcEncrypt {
    const cipher: Cipher
    const state: array<Block>
    var pos: u8

    ghost predicate Valid()
      reads this, state
    {
      cipher.WellFormed() && cipher.blockSize <= 255 && ValidChain(Chain(), cipher.blockSize)
    }

    /** The chaining state as a value. */
    function Chain(): Ring
      reads this, state
    {
      Ring(state[..], pos as nat)
    }

    /** `inner_iv_init`: slot `i` takes IV block `i`, and `pos` starts at 0. */
    constructor (cipher: Cipher, z: u8, iv: seq<Byte>)
      requires cipher.WellFormed() && cipher.blockSize <= 255
      requires 0 < z && |iv| == z as nat * cipher.blockSize
      ensures Valid() && fresh(state) && this.cipher == cipher
      ensures state[..] == Chunks(iv, cipher.blockSize, z as nat) && pos == 0
      ensures Chain() == RingFromIv(iv, cipher.blockSize, z as nat)
    {
      var bs := cipher.blockSize;
      var st := new Block[z as int];
      for i := 0 to z as int
        invariant forall j :: 0 <= j < i ==> st[j] == Chunk(iv, bs, z as nat, j)
      {
        ChunkInRange(i, z as nat, bs);
        st[i] := iv[i * bs..(i + 1) * bs];
      }
      this.cipher := cipher;
      state := st;
      pos := 0;
      new;
      assert state[..] == Chunks(iv, bs, z as nat);
    }

    /** `encrypt_block_inout_mut`. */
    method EncryptBlock(input: Block) returns (output: Block)
      requires Valid() && |input| == cipher.blockSize
      modifies this, state
      ensures Valid()
      ensures output == cipher.encrypt(XorBytes(input, old(state[pos])))
      ensures state[..] == old(state[..])[old(pos) as int := output]
      ensures pos as int == (old(pos) as int + 1) % state.Length
      ensures (Chain(), output) == EncryptStep(cipher, old(Chain()), input)
    {
      var b := new Byte[|input|](i requires 0 <= i < |input| => input[i]);
      assert b[..] == input;
      GostUtils.Xor(b, state[pos]);
      GostUtils.XorZipEqualLength(input, old(state[pos]));
      output := cipher.encrypt(b[..]);
      state[pos] := output;
      pos := pos + 1;
      pos := pos % state.Length as u8;
    }
  }

  /** `CbcDecrypt<C, Z>`. */
  class CbcDecrypt {
    const cipher: Cipher
    const state: array<Block>
    var pos: u8

    ghost predicate Valid()
      reads this, state
    {
      cipher.WellFormed() && cipher.blockSize <= 255 && ValidChain(Chain(), cipher.blockSize)
    }

    /** The chaining state as a value. */
    function Chain(): Ring
      reads this, state
    {
      Ring(state[..], pos as nat)
    }

    /** `inner_iv_init`: slot `i` takes IV block `i`, and `pos` starts at 0. */
    constructor (cipher: Cipher, z: u8, iv: seq<Byte>)
      requires cipher.WellFormed() && cipher.blockSize <= 255
      requires 0 < z && |iv| == z as nat * cipher.blockSize
      ensures Valid() && fresh(state) && this.cipher == cipher
      ensures state[..] == Chunks(iv, cipher.blockSize, z as nat) && pos == 0
      ensures Chain() == RingFromIv(iv, cipher.blockSize, z as nat)
    {
      var bs := cipher.blockSize;
      var st := new Block[z as int];
      for i := 0 to z as int
        invariant forall j :: 0 <= j < i ==> st[j] == Chunk(iv, bs, z as nat, j)
      {
        ChunkInRange(i, z as nat, bs);
        st[i] := iv[i * bs..(i + 1) * bs];
      }
      this.cipher := cipher;
      state := st;
      pos := 0;
      new;
      assert state[..] == Chunks(iv, bs, z as nat);
    }

    /** `decrypt_block_inout_mut`. */
    method DecryptBlock(input: Block) returns (output: Block)
      requires Valid() && |input| == cipher.blockSize
      modifies this, state
      ensures Valid()
      ensures output == XorBytes(cipher.decrypt(input), old(state[pos]))
      ensures state[..] == old(state[..])[old(pos) as int := input]
      ensures pos as int == (old(pos) as int + 1) % state.Length
      ensures (Chain(), output) == DecryptStep(cipher, old(Chain()), input)
    {
      var p := pos as int;
      var b := state[p];
      state[p] := input;
      var d := cipher.decrypt(input);
      var b2 := new Byte[|d|](i requires 0 <= i < |d| => d[i]);
      assert b2[..] == d;
      GostUtils.Xor(b2, b);
      GostUtils.XorZipEqualLength(d, b);
      output := b2[..];
      pos := pos + 1;
      pos := pos % state.Length as u8;
    }
  }
}
