/**
 * Counter (CTR) mode as defined in GOST R 34.13-2015, section 5.2, for a
 * cipher whose block is `2 * w` bytes: the block encrypted for the keystream
 * is the `w`-byte nonce followed by the `w`-byte counter, both big-endian,
 * and the counter wraps modulo `256^w`. The 128-bit and 64-bit variants are
 * this with `w = 8` and `w = 4`.
 */
module GostCtr {
  import opened Bytes
  import opened BlockCipher
  import opened Wrappers
  import ModArith

  /** The cipher and the number `s` of keystream bytes used suit a block of `2 * w` bytes. */
  ghost predicate ValidParams(c: Cipher, s: nat, w: nat) {
    c.WellFormed() && c.blockSize == 2 * w && 0 < s <= c.blockSize
  }

  /** The block `nonce.to_be_bytes() || ctr.to_be_bytes()`. */
  function CounterBlock(nonce: nat, ctr: nat, w: nat): (r: Block)
    requires nonce < Pow256(w) && ctr < Pow256(w)
    ensures |r| == 2 * w
  {
    ToBe(nonce, w) + ToBe(ctr, w)
  }

  /** Both halves of the counter block decode back to the nonce and the counter. */
  lemma CounterBlockDecodes(nonce: nat, ctr: nat, w: nat)
    requires nonce < Pow256(w) && ctr < Pow256(w)
    ensures FromBe(CounterBlock(nonce, ctr, w)[..w]) == nonce
    ensures FromBe(CounterBlock(nonce, ctr, w)[w..]) == ctr
  {
    var r := CounterBlock(nonce, ctr, w);
    assert r[..w] == ToBe(nonce, w) && r[w..] == ToBe(ctr, w);
    FromBeToBe(nonce, w);
    FromBeToBe(ctr, w);
  }

  /** The encrypted counter block; its first `s` bytes are the keystream for one block. */
  function KeystreamBlock(c: Cipher, w: nat, nonce: nat, ctr: nat): (r: Block)
    requires c.WellFormed() && c.blockSize == 2 * w
    requires nonce < Pow256(w) && ctr < Pow256(w)
    ensures |r| == 2 * w
  {
    c.encrypt(CounterBlock(nonce, ctr, w))
  }

  /** `ctr.wrapping_add(1)` on a `w`-byte counter. */
  function Next(w: nat, ctr: nat): (r: nat)
    requires ctr < Pow256(w)
    ensures r < Pow256(w)
  {
    if ctr + 1 < Pow256(w) then ctr + 1 else 0
  }

  /** The counter `n` wrapping increments after `ctr`. */
  function Advance(w: nat, ctr: nat, n: nat): (r: nat)
    requires ctr < Pow256(w)
    ensures r < Pow256(w)
  {
    if n == 0 then ctr else Next(w, Advance(w, ctr, n - 1))
  }

  /** The wrapping increment is the successor modulo `256^w`, so `n` of them add `n` modulo `256^w`. */
  lemma {:induction false} AdvanceIsMod(w: nat, ctr: nat, n: nat)
    requires ctr < Pow256(w)
    ensures Advance(w, ctr, n) == (ctr + n) % Pow256(w)
  {
    var p := Pow256(w);
    if n == 0 {
      ModArith.ModUnique(ctr, p, 0, ctr);
    } else {
      AdvanceIsMod(w, ctr, n - 1);
      var k := (ctr + n - 1) % p;
      ModArith.ModSucc(ctr + n - 1, p);
      if k + 1 < p {
        ModArith.ModUnique(k + 1, p, 0, k + 1);
      } else {
        ModArith.ModUnique(k + 1, p, 1, 0);
      }
    }
  }

  /** Advancing by `a` and then by `b` is advancing by `a + b`. */
  lemma {:induction false} AdvanceAdd(w: nat, ctr: nat, a: nat, b: nat)
    requires ctr < Pow256(w)
    ensures Advance(w, Advance(w, ctr, a), b) == Advance(w, ctr, a + b)
  {
    if b > 0 {
      AdvanceAdd(w, ctr, a, b - 1);
    }
  }

  /** `xor_block`: XOR the data with the keystream and advance the counter with a wrapping add. */
  function Step(c: Cipher, s: nat, w: nat, nonce: nat, ctr: nat, block: Block): (res: (nat, Block))
    requires ValidParams(c, s, w) && nonce < Pow256(w) && ctr < Pow256(w) && |block| == s
    ensures res.0 < Pow256(w) && |res.1| == s
  {
    (Next(w, ctr), XorBytes(block, KeystreamBlock(c, w, nonce, ctr)[..s]))
  }

  /** Blocks processed one after another: the final counter and the output blocks. */
  function ApplyBlocks(c: Cipher, s: nat, w: nat, nonce: nat, ctr: nat, blocks: seq<Block>): (res: (nat, seq<Block>))
    requires ValidParams(c, s, w) && nonce < Pow256(w) && ctr < Pow256(w) && AllBlocks(blocks, s)
    ensures res.0 < Pow256(w) && |res.1| == |blocks| && AllBlocks(res.1, s)
    decreases |blocks|
  {
    if blocks == [] then (ctr, [])
    else
      var prev := ApplyBlocks(c, s, w, nonce, ctr, blocks[..|blocks| - 1]);
      var last := Step(c, s, w, nonce, prev.0, blocks[|blocks| - 1]);
      (last.0, prev.1 + [last.1])
  }

  lemma ApplyBlocksSnoc(c: Cipher, s: nat, w: nat, nonce: nat, ctr: nat, blocks: seq<Block>, b: Block)
    requires ValidParams(c, s, w) && nonce < Pow256(w) && ctr < Pow256(w)
    requires AllBlocks(blocks, s) && |b| == s
    ensures AllBlocks(blocks + [b], s)
    ensures var prev := ApplyBlocks(c, s, w, nonce, ctr, blocks);
            var last := Step(c, s, w, nonce, prev.0, b);
            ApplyBlocks(c, s, w, nonce, ctr, blocks + [b]) == (last.0, prev.1 + [last.1])
  {
    assert (blocks + [b])[..|blocks|] == blocks;
  }

  /**
   * Encryption and decryption are the same transformation: the output run
   * through a second instance with the same nonce and counter gives the input
   * back, and both counters end equal.
   */
  lemma {:induction false} ApplyTwice(c: Cipher, s: nat, w: nat, nonce: nat, ctr: nat, blocks: seq<Block>)
    requires ValidParams(c, s, w) && nonce < Pow256(w) && ctr < Pow256(w) && AllBlocks(blocks, s)
    ensures var e := ApplyBlocks(c, s, w, nonce, ctr, blocks);
            ApplyBlocks(c, s, w, nonce, ctr, e.1) == (e.0, blocks)
  {
    if blocks != [] {
      var n := |blocks|;
      var front, b := blocks[..n - 1], blocks[n - 1];
      assert blocks == front + [b];
      var e1 := ApplyBlocks(c, s, w, nonce, ctr, front);
      var e2 := Step(c, s, w, nonce, e1.0, b);
      ApplyBlocksSnoc(c, s, w, nonce, ctr, front, b);
      ApplyTwice(c, s, w, nonce, ctr, front);
      ApplyBlocksSnoc(c, s, w, nonce, ctr, e1.1, e2.1);
      XorBytesCancel(b, KeystreamBlock(c, w, nonce, e1.0)[..s]);
    }
  }

  /** After `n` blocks the counter has been incremented `n` times. */
  lemma {:induction false} CounterAfter(c: Cipher, s: nat, w: nat, nonce: nat, ctr: nat, blocks: seq<Block>)
    requires ValidParams(c, s, w) && nonce < Pow256(w) && ctr < Pow256(w) && AllBlocks(blocks, s)
    ensures ApplyBlocks(c, s, w, nonce, ctr, blocks).0 == Advance(w, ctr, |blocks|)
  {
    if blocks != [] {
      var n := |blocks| - 1;
      var front, b := blocks[..n], blocks[n];
      assert blocks == front + [b];
      ApplyBlocksSnoc(c, s, w, nonce, ctr, front, b);
      CounterAfter(c, s, w, nonce, ctr, front);
    }
  }

  /**
   * The keystream of section 5.2: block `j` is XOR-ed with the first `s`
   * bytes of the encryption of the counter `j` increments after `ctr`
   * (`ctr + j` modulo `256^w`, by `AdvanceIsMod`).
   */
  lemma {:induction false} Keystream(c: Cipher, s: nat, w: nat, nonce: nat, ctr: nat, blocks: seq<Block>)
    requires ValidParams(c, s, w) && nonce < Pow256(w) && ctr < Pow256(w) && AllBlocks(blocks, s)
    ensures var e := ApplyBlocks(c, s, w, nonce, ctr, blocks);
            forall j :: 0 <= j < |blocks| ==>
              e.1[j] == XorBytes(blocks[j], KeystreamBlock(c, w, nonce, Advance(w, ctr, j))[..s])
  {
    if blocks != [] {
      var e := ApplyBlocks(c, s, w, nonce, ctr, blocks);
      var n := |blocks| - 1;
      var front, b := blocks[..n], blocks[n];
      assert blocks == front + [b];
      var e1 := ApplyBlocks(c, s, w, nonce, ctr, front);
      ApplyBlocksSnoc(c, s, w, nonce, ctr, front, b);
      Keystream(c, s, w, nonce, ctr, front);
      CounterAfter(c, s, w, nonce, ctr, front);
      assert e.1 == e1.1 + [XorBytes(b, KeystreamBlock(c, w, nonce, Advance(w, ctr, n))[..s])];
      forall j | 0 <= j < |blocks|
        ensures e.1[j] == XorBytes(blocks[j], KeystreamBlock(c, w, nonce, Advance(w, ctr, j))[..s])
      {
        if j < n {
          assert e.1[j] == e1.1[j] && blocks[j] == front[j];
        }
      }
    }
  }

  /**
   * Within one period the counter blocks never repeat: the `256^w` blocks
   * after any starting counter are encrypted from pairwise different inputs,
   * so no keystream block is reused.
   */
  lemma CounterBlocksDistinct(nonce: nat, ctr: nat, w: nat, i: nat, j: nat)
    requires nonce < Pow256(w) && ctr < Pow256(w)
    requires i < j < Pow256(w)
    ensures CounterBlock(nonce, Advance(w, ctr, i), w) != CounterBlock(nonce, Advance(w, ctr, j), w)
  {
    AdvanceDistinct(w, ctr, i, j);
    CounterBlockInjective(nonce, Advance(w, ctr, i), Advance(w, ctr, j), w);
  }

  /** Fewer than `256^w` increments never bring the counter back to where it was. */
  lemma AdvanceDistinct(w: nat, ctr: nat, i: nat, j: nat)
    requires ctr < Pow256(w) && i < j < Pow256(w)
    ensures Advance(w, ctr, i) != Advance(w, ctr, j)
  {
    AdvanceIsMod(w, ctr, i);
    AdvanceIsMod(w, ctr, j);
    ModArith.ModDistinct(ctr + i, j - i, Pow256(w));
    assert ctr + i + (j - i) == ctr + j;
  }

  /** Different counters give different counter blocks. */
  lemma CounterBlockInjective(nonce: nat, a: nat, b: nat, w: nat)
    requires nonce < Pow256(w) && a < Pow256(w) && b < Pow256(w) && a != b
    ensures CounterBlock(nonce, a, w) != CounterBlock(nonce, b, w)
  {
    CounterBlockDecodes(nonce, a, w);
    CounterBlockDecodes(nonce, b, w);
  }

  /**
   * `remaining_blocks`: `MAX - ctr` as a `usize` when it fits (it always does
   * on 64-bit targets for these widths).
   */
  function Remaining(w: nat, ctr: nat): (r: Option<nat>)
    requires ctr < Pow256(w)
    ensures r.Some? <==> Pow256(w) - 1 - ctr <= USIZE_MAX
    ensures r.Some? ==> ctr + r.value == Pow256(w) - 1
  {
    var left := Pow256(w) - 1 - ctr;
    if left <= USIZE_MAX then Some(left) else None
  }

  /**
   * The remaining count is exact: that many further blocks take the counter to
   * its maximum without wrapping, and then the counter blocks used are all
   * different.
   */
  lemma RemainingWithoutWrap(c: Cipher, s: nat, w: nat, nonce: nat, ctr: nat, blocks: seq<Block>)
    requires ValidParams(c, s, w) && nonce < Pow256(w) && ctr < Pow256(w) && AllBlocks(blocks, s)
    requires Remaining(w, ctr).Some? && |blocks| <= Remaining(w, ctr).value
    ensures ApplyBlocks(c, s, w, nonce, ctr, blocks).0 == ctr + |blocks|
  {
    CounterAfter(c, s, w, nonce, ctr, blocks);
    AdvanceIsMod(w, ctr, |blocks|);
    ModArith.ModUnique(ctr + |blocks|, Pow256(w), 0, ctr + |blocks|);
  }

  /** Processing `xs + ys` is processing `xs` and then, from where it ended, `ys`. */
  lemma {:induction false} ApplyBlocksAppend(c: Cipher, s: nat, w: nat, nonce: nat, ctr: nat, xs: seq<Block>, ys: seq<Block>)
    requires ValidParams(c, s, w) && nonce < Pow256(w) && ctr < Pow256(w)
    requires AllBlocks(xs, s) && AllBlocks(ys, s)
    ensures AllBlocks(xs + ys, s)
    ensures var mid := ApplyBlocks(c, s, w, nonce, ctr, xs);
            var rest := ApplyBlocks(c, s, w, nonce, mid.0, ys);
            ApplyBlocks(c, s, w, nonce, ctr, xs + ys) == (rest.0, mid.1 + rest.1)
  {
    assert AllBlocks(xs + ys, s);
    var mid := ApplyBlocks(c, s, w, nonce, ctr, xs);
    if ys == [] {
      assert xs + ys == xs;
      assert ApplyBlocks(c, s, w, nonce, mid.0, ys) == (mid.0, []);
      assert mid.1 + [] == mid.1;
    } else {
      var n := |ys| - 1;
      var front, b := ys[..n], ys[n];
      assert ys == front + [b];
      assert xs + ys == (xs + front) + [b];
      ApplyBlocksAppend(c, s, w, nonce, ctr, xs, front);
      ApplyBlocksSnoc(c, s, w, nonce, ctr, xs + front, b);
      ApplyBlocksSnoc(c, s, w, nonce, mid.0, front, b);
      var r1 := ApplyBlocks(c, s, w, nonce, mid.0, front);
      var last := Step(c, s, w, nonce, r1.0, b);
      assert mid.1 + r1.1 + [last.1] == mid.1 + (r1.1 + [last.1]);
    }
  }

  /**
   * Seeking agrees with processing: the output for `ys` after `xs` is what an
   * instance whose block position is set to `ctr + |xs|` (modulo `256^w`)
   * produces for `ys`, and both end with the same counter.
   */
  lemma SeekAgrees(c: Cipher, s: nat, w: nat, nonce: nat, ctr: nat, xs: seq<Block>, ys: seq<Block>)
    requires ValidParams(c, s, w) && nonce < Pow256(w) && ctr < Pow256(w)
    requires AllBlocks(xs, s) && AllBlocks(ys, s)
    ensures AllBlocks(xs + ys, s)
    ensures var seek := (ctr + |xs|) % Pow256(w);
            && ApplyBlocks(c, s, w, nonce, ctr, xs + ys).1[|xs|..] == ApplyBlocks(c, s, w, nonce, seek, ys).1
            && ApplyBlocks(c, s, w, nonce, ctr, xs + ys).0 == ApplyBlocks(c, s, w, nonce, seek, ys).0
  {
    ApplyBlocksAppend(c, s, w, nonce, ctr, xs, ys);
    CounterAfter(c, s, w, nonce, ctr, xs);
    AdvanceIsMod(w, ctr, |xs|);
    var mid := ApplyBlocks(c, s, w, nonce, ctr, xs);
    var rest := ApplyBlocks(c, s, w, nonce, mid.0, ys);
    assert (mid.1 + rest.1)[|xs|..] == rest.1;
  }
}
