/**
 * Triple DES: three single-DES operations on a 64-bit block, keyed with
 * three (or two) independent 64-bit key words, as in the TDEA keying options
 * of NIST SP 800-67 section 3. Single DES itself is kept abstract.
 */
module Tdes {
  import opened Bytes
  import opened BlockCipher

  /** All four variants work on 8-byte blocks. */
  const BLOCK_SIZE: nat := 8
  /** The key size of the three-key variants. */
  const KEY_SIZE_3: nat := 24
  /** The key size of the two-key variants. */
  const KEY_SIZE_2: nat := 16

  /**
   * Single DES with its key schedule folded in: `Des { keys: gen_keys(k) }`
   * is represented by the key word `k`, and encrypts and decrypts a 64-bit
   * block given as a `u64`.
   */
  datatype Des = Des(encrypt: (u64, u64) -> u64, decrypt: (u64, u64) -> u64) {
    /** For every key DES is a permutation of the 64-bit blocks with `decrypt` as its inverse. */
    ghost predicate Permutes() {
      && (forall k: u64, x: u64 :: decrypt(k, encrypt(k, x)) == x)
      && (forall k: u64, x: u64 :: encrypt(k, decrypt(k, x)) == x)
    }
  }

  /** `TdesEde3`: encrypt with `k1`, decrypt with `k2`, encrypt with `k3`. */
  datatype TdesEde3 = TdesEde3(k1: u64, k2: u64, k3: u64)
  /** `TdesEee3`: encrypt with `k1`, `k2` and `k3`. */
  datatype TdesEee3 = TdesEee3(k1: u64, k2: u64, k3: u64)
  /** `TdesEde2`: as `TdesEde3` with `k1` used again for the third stage. */
  datatype TdesEde2 = TdesEde2(k1: u64, k2: u64)
  /** `TdesEee2`: as `TdesEee3` with `k1` used again for the third stage. */
  datatype TdesEee2 = TdesEee2(k1: u64, k2: u64)

  /** Key word `i`: bytes `8 i .. 8 i + 8` of the key read as a big-endian `u64`. */
  function KeyWord(key: seq<Byte>, i: nat): (k: u64)
    requires 8 * i + 8 <= |key|
    ensures U64Be(k) == key[8 * i..8 * i + 8]
  {
    U64BeRoundTrip(key[8 * i..8 * i + 8]);
    BeU64(key[8 * i..8 * i + 8])
  }

  /** `TdesEde3::new`: the 24-byte key is three big-endian key words. */
  function NewEde3(key: seq<Byte>): (t: TdesEde3)
    requires |key| == KEY_SIZE_3
    ensures U64Be(t.k1) + U64Be(t.k2) + U64Be(t.k3) == key
  {
    var t := TdesEde3(KeyWord(key, 0), KeyWord(key, 1), KeyWord(key, 2));
    assert key == key[0..8] + key[8..16] + key[16..24];
    t
  }

  /** `TdesEee3::new`: the 24-byte key is three big-endian key words. */
  function NewEee3(key: seq<Byte>): (t: TdesEee3)
    requires |key| == KEY_SIZE_3
    ensures U64Be(t.k1) + U64Be(t.k2) + U64Be(t.k3) == key
  {
    var t := TdesEee3(KeyWord(key, 0), KeyWord(key, 1), KeyWord(key, 2));
    assert key == key[0..8] + key[8..16] + key[16..24];
    t
  }

  /** `TdesEde2::new`: the 16-byte key is two big-endian key words. */
  function NewEde2(key: seq<Byte>): (t: TdesEde2)
    requires |key| == KEY_SIZE_2
    ensures U64Be(t.k1) + U64Be(t.k2) == key
  {
    var t := TdesEde2(KeyWord(key, 0), KeyWord(key, 1));
    assert key == key[0..8] + key[8..16];
    t
  }

  /** `TdesEee2::new`: the 16-byte key is two big-endian key words. */
  function NewEee2(key: seq<Byte>): (t: TdesEee2)
    requires |key| == KEY_SIZE_2
    ensures U64Be(t.k1) + U64Be(t.k2) == key
  {
    var t := TdesEee2(KeyWord(key, 0), KeyWord(key, 1));
    assert key == key[0..8] + key[8..16];
    t
  }

  function Ede3Encrypt(des: Des, t: TdesEde3, block: Block): (r: Block)
    requires |block| == BLOCK_SIZE
    ensures |r| == BLOCK_SIZE
  {
    var x1 := des.encrypt(t.k1, BeU64(block));
    var x2 := des.decrypt(t.k2, x1);
    U64Be(des.encrypt(t.k3, x2))
  }

  function Ede3Decrypt(des: Des, t: TdesEde3, block: Block): (r: Block)
    requires |block| == BLOCK_SIZE
    ensures |r| == BLOCK_SIZE
  {
    var x1 := des.decrypt(t.k3, BeU64(block));
    var x2 := des.encrypt(t.k2, x1);
    U64Be(des.decrypt(t.k1, x2))
  }

  function Eee3Encrypt(des: Des, t: TdesEee3, block: Block): (r: Block)
    requires |block| == BLOCK_SIZE
    ensures |r| == BLOCK_SIZE
  {
    var x1 := des.encrypt(t.k1, BeU64(block));
    var x2 := des.encrypt(t.k2, x1);
    U64Be(des.encrypt(t.k3, x2))
  }

  function Eee3Decrypt(des: Des, t: TdesEee3, block: Block): (r: Block)
    requires |block| == BLOCK_SIZE
    ensures |r| == BLOCK_SIZE
  {
    var x1 := des.decrypt(t.k3, BeU64(block));
    var x2 := des.decrypt(t.k2, x1);
    U64Be(des.decrypt(t.k1, x2))
  }

  function Ede2Encrypt(des: Des, t: TdesEde2, block: Block): (r: Block)
    requires |block| == BLOCK_SIZE
    ensures |r| == BLOCK_SIZE
  {
    var x1 := des.encrypt(t.k1, BeU64(block));
    var x2 := des.decrypt(t.k2, x1);
    U64Be(des.encrypt(t.k1, x2))
  }

  function Ede2Decrypt(des: Des, t: TdesEde2, block: Block): (r: Block)
    requires |block| == BLOCK_SIZE
    ensures |r| == BLOCK_SIZE
  {
    var x1 := des.decrypt(t.k1, BeU64(block));
    var x2 := des.encrypt(t.k2, x1);
    U64Be(des.decrypt(t.k1, x2))
  }

  function Eee2Encrypt(des: Des, t: TdesEee2, block: Block): (r: Block)
    requires |block| == BLOCK_SIZE
    ensures |r| == BLOCK_SIZE
  {
    var x1 := des.encrypt(t.k1, BeU64(block));
    var x2 := des.encrypt(t.k2, x1);
    U64Be(des.encrypt(t.k1, x2))
  }

  function Eee2Decrypt(des: Des, t: TdesEee2, block: Block): (r: Block)
    requires |block| == BLOCK_SIZE
    ensures |r| == BLOCK_SIZE
  {
    var x1 := des.decrypt(t.k1, BeU64(block));
    var x2 := des.decrypt(t.k2, x1);
    U64Be(des.decrypt(t.k1, x2))
  }

  /** EDE3 decryption undoes encryption, and encryption undoes decryption. */
  lemma Ede3RoundTrip(des: Des, t: TdesEde3, block: Block)
    requires des.Permutes() && |block| == BLOCK_SIZE
    ensures Ede3Decrypt(des, t, Ede3Encrypt(des, t, block)) == block
    ensures Ede3Encrypt(des, t, Ede3Decrypt(des, t, block)) == block
  {
    BeU64RoundTrip(des.encrypt(t.k3, des.decrypt(t.k2, des.encrypt(t.k1, BeU64(block)))));
    BeU64RoundTrip(des.decrypt(t.k1, des.encrypt(t.k2, des.decrypt(t.k3, BeU64(block)))));
    U64BeRoundTrip(block);
  }

  /** EEE3 decryption undoes encryption, and encryption undoes decryption. */
  lemma Eee3RoundTrip(des: Des, t: TdesEee3, block: Block)
    requires des.Permutes() && |block| == BLOCK_SIZE
    ensures Eee3Decrypt(des, t, Eee3Encrypt(des, t, block)) == block
    ensures Eee3Encrypt(des, t, Eee3Decrypt(des, t, block)) == block
  {
    BeU64RoundTrip(des.encrypt(t.k3, des.encrypt(t.k2, des.encrypt(t.k1, BeU64(block)))));
    BeU64RoundTrip(des.decrypt(t.k1, des.decrypt(t.k2, des.decrypt(t.k3, BeU64(block)))));
    U64BeRoundTrip(block);
  }

  /** EDE2 decryption undoes encryption, and encryption undoes decryption. */
  lemma Ede2RoundTrip(des: Des, t: TdesEde2, block: Block)
    requires des.Permutes() && |block| == BLOCK_SIZE
    ensures Ede2Decrypt(des, t, Ede2Encrypt(des, t, block)) == block
    ensures Ede2Encrypt(des, t, Ede2Decrypt(des, t, block)) == block
  {
    BeU64RoundTrip(des.encrypt(t.k1, des.decrypt(t.k2, des.encrypt(t.k1, BeU64(block)))));
    BeU64RoundTrip(des.decrypt(t.k1, des.encrypt(t.k2, des.decrypt(t.k1, BeU64(block)))));
    U64BeRoundTrip(block);
  }

  /** EEE2 decryption undoes encryption, and encryption undoes decryption. */
  lemma Eee2RoundTrip(des: Des, t: TdesEee2, block: Block)
    requires des.Permutes() && |block| == BLOCK_SIZE
    ensures Eee2Decrypt(des, t, Eee2Encrypt(des, t, block)) == block
    ensures Eee2Encrypt(des, t, Eee2Decrypt(des, t, block)) == block
  {
    BeU64RoundTrip(des.encrypt(t.k1, des.encrypt(t.k2, des.encrypt(t.k1, BeU64(block)))));
    BeU64RoundTrip(des.decrypt(t.k1, des.decrypt(t.k2, des.decrypt(t.k1, BeU64(block)))));
    U64BeRoundTrip(block);
  }

  /** One single-DES encryption stage on an 8-byte block. */
  function DesBlock(des: Des, k: u64, b: Block): (r: Block)
    requires |b| == BLOCK_SIZE
    ensures |r| == BLOCK_SIZE
  {
    U64Be(des.encrypt(k, BeU64(b)))
  }

  /** One single-DES decryption stage on an 8-byte block. */
  function DesInvBlock(des: Des, k: u64, b: Block): (r: Block)
    requires |b| == BLOCK_SIZE
    ensures |r| == BLOCK_SIZE
  {
    U64Be(des.decrypt(k, BeU64(b)))
  }

  /**
   * EDE3 is three single-DES stages applied to the block one after another:
   * converting the 64-bit word to bytes and back between stages changes nothing.
   */
  lemma Ede3Stages(des: Des, t: TdesEde3, block: Block)
    requires |block| == BLOCK_SIZE
    ensures Ede3Encrypt(des, t, block) == DesBlock(des, t.k3, DesInvBlock(des, t.k2, DesBlock(des, t.k1, block)))
    ensures Ede3Decrypt(des, t, block) == DesInvBlock(des, t.k1, DesBlock(des, t.k2, DesInvBlock(des, t.k3, block)))
  {
    var w := BeU64(block);
    BeU64RoundTrip(des.encrypt(t.k1, w));
    BeU64RoundTrip(des.decrypt(t.k2, des.encrypt(t.k1, w)));
    BeU64RoundTrip(des.decrypt(t.k3, w));
    BeU64RoundTrip(des.encrypt(t.k2, des.decrypt(t.k3, w)));
  }

  /** EEE3 is three single-DES encryption stages, and its inverse three decryption stages in reverse order. */
  lemma Eee3Stages(des: Des, t: TdesEee3, block: Block)
    requires |block| == BLOCK_SIZE
    ensures Eee3Encrypt(des, t, block) == DesBlock(des, t.k3, DesBlock(des, t.k2, DesBlock(des, t.k1, block)))
    ensures Eee3Decrypt(des, t, block) == DesInvBlock(des, t.k1, DesInvBlock(des, t.k2, DesInvBlock(des, t.k3, block)))
  {
    var w := BeU64(block);
    BeU64RoundTrip(des.encrypt(t.k1, w));
    BeU64RoundTrip(des.encrypt(t.k2, des.encrypt(t.k1, w)));
    BeU64RoundTrip(des.decrypt(t.k3, w));
    BeU64RoundTrip(des.decrypt(t.k2, des.decrypt(t.k3, w)));
  }

  /** EDE2 is EDE with `k1` as both outer stages. */
  lemma Ede2Stages(des: Des, t: TdesEde2, block: Block)
    requires |block| == BLOCK_SIZE
    ensures Ede2Encrypt(des, t, block) == DesBlock(des, t.k1, DesInvBlock(des, t.k2, DesBlock(des, t.k1, block)))
    ensures Ede2Decrypt(des, t, block) == DesInvBlock(des, t.k1, DesBlock(des, t.k2, DesInvBlock(des, t.k1, block)))
  {
    var w := BeU64(block);
    BeU64RoundTrip(des.encrypt(t.k1, w));
    BeU64RoundTrip(des.decrypt(t.k2, des.encrypt(t.k1, w)));
    BeU64RoundTrip(des.decrypt(t.k1, w));
    BeU64RoundTrip(des.encrypt(t.k2, des.decrypt(t.k1, w)));
  }

  /** EEE2 is EEE with `k1` as both outer stages. */
  lemma Eee2Stages(des: Des, t: TdesEee2, block: Block)
    requires |block| == BLOCK_SIZE
    ensures Eee2Encrypt(des, t, block) == DesBlock(des, t.k1, DesBlock(des, t.k2, DesBlock(des, t.k1, block)))
    ensures Eee2Decrypt(des, t, block) == DesInvBlock(des, t.k1, DesInvBlock(des, t.k2, DesInvBlock(des, t.k1, block)))
  {
    var w := BeU64(block);
    BeU64RoundTrip(des.encrypt(t.k1, w));
    BeU64RoundTrip(des.encrypt(t.k2, des.encrypt(t.k1, w)));
    BeU64RoundTrip(des.decrypt(t.k1, w));
    BeU64RoundTrip(des.decrypt(t.k2, des.decrypt(t.k1, w)));
  }

  /**
   * The two-key variants are the three-key ones with the first key word
   * repeated as the third: a 16-byte key `K` behaves as the 24-byte key
   * `K` followed by its first 8 bytes.
   */
  lemma TwoKeyIsThreeKey(des: Des, key: seq<Byte>, block: Block)
    requires |key| == KEY_SIZE_2 && |block| == BLOCK_SIZE
    ensures |key + key[..8]| == KEY_SIZE_3
    ensures Ede2Encrypt(des, NewEde2(key), block) == Ede3Encrypt(des, NewEde3(key + key[..8]), block)
    ensures Ede2Decrypt(des, NewEde2(key), block) == Ede3Decrypt(des, NewEde3(key + key[..8]), block)
    ensures Eee2Encrypt(des, NewEee2(key), block) == Eee3Encrypt(des, NewEee3(key + key[..8]), block)
    ensures Eee2Decrypt(des, NewEee2(key), block) == Eee3Decrypt(des, NewEee3(key + key[..8]), block)
  {
    var long := key + key[..8];
    assert long[0..8] == key[0..8] && long[8..16] == key[8..16] && long[16..24] == key[0..8];
  }

  /**
   * With all three key words equal, EDE3 is single DES: the first two stages
   * cancel, which is what keeps EDE compatible with single-DES equipment.
   */
  lemma Ede3OneKeyIsDes(des: Des, k: u64, block: Block)
    requires des.Permutes() && |block| == BLOCK_SIZE
    ensures Ede3Encrypt(des, TdesEde3(k, k, k), block) == U64Be(des.encrypt(k, BeU64(block)))
    ensures Ede3Decrypt(des, TdesEde3(k, k, k), block) == U64Be(des.decrypt(k, BeU64(block)))
  {
  }

  /** EDE3 as a block cipher on 8-byte blocks, for any mode above that takes 8-byte blocks (all but CTR-128). */
  function Ede3Cipher(des: Des, t: TdesEde3): (c: Cipher)
    ensures c.WellFormed() && c.blockSize == BLOCK_SIZE
  {
    Cipher(BLOCK_SIZE,
      b => if |b| == BLOCK_SIZE then Ede3Encrypt(des, t, b) else b,
      b => if |b| == BLOCK_SIZE then Ede3Decrypt(des, t, b) else b)
  }

  /** With single DES a permutation, the EDE3 block cipher is invertible. */
  lemma Ede3CipherInvertible(des: Des, t: TdesEde3)
    requires des.Permutes()
    ensures Ede3Cipher(des, t).Invertible()
  {
    forall b: Block | |b| == BLOCK_SIZE
      ensures Ede3Cipher(des, t).decrypt(Ede3Cipher(des, t).encrypt(b)) == b
    {
      Ede3RoundTrip(des, t, b);
    }
  }

  /** The four block-cipher structs. */
  datatype Variant = Ede3 | Eee3 | Ede2 | Eee2

  /** The name of each struct. */
  function Name(v: Variant): string {
    match v
    case Ede3 => "TdesEde3"
    case Eee3 => "TdesEee3"
    case Ede2 => "TdesEde2"
    case Eee2 => "TdesEee2"
  }

  /** The `Debug` output as written: the `TdesEde3` impl prints the `TdesEee3` name. */
  function DebugAsWritten(v: Variant): (r: string)
    ensures v != Ede3 ==> r == Name(v) + " { ... }"
  {
    match v
    case Ede3 => "TdesEee3 { ... }"
    case Eee3 => "TdesEee3 { ... }"
    case Ede2 => "TdesEde2 { ... }"
    case Eee2 => "TdesEee2 { ... }"
  }

  /** As written, an EDE3 and an EEE3 instance cannot be told apart by their `Debug` output. */
  lemma DebugAsWrittenConfusesEde3()
    ensures DebugAsWritten(Ede3) != Name(Ede3) + " { ... }"
    ensures DebugAsWritten(Ede3) == DebugAsWritten(Eee3)
  {
    assert DebugAsWritten(Ede3)[5] != (Name(Ede3) + " { ... }")[5];
  }

  /** The evidently intended `Debug` output: each struct's own name. */
  function Debug(v: Variant): (r: string)
    ensures |r| > |Name(v)| && r[..|Name(v)|] == Name(v)
  {
    Name(v) + " { ... }"
  }

  /** With the intended output the four structs' `Debug` strings are distinct. */
  lemma DebugInjective(v: Variant, w: Variant)
    requires Debug(v) == Debug(w)
    ensures v == w
  {
    assert Debug(v)[..8] == Name(v);
    assert Debug(w)[..8] == Name(w);
  }
}
