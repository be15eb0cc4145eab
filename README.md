# Block cipher modes of operation and Triple DES, modelled in Dafny

This project models two layers of a Rust block-cipher collection that sit
above the raw ciphers, and proves what they promise.

* **Stateful modes of operation.** These are the GOST R 34.13-2015 modes of
  the `gost-modes` crate:
  * CBC, with a ring of `Z` IV blocks;
  * OFB, with a ring of `Z` IV blocks, `S` keystream bytes per block;
  * CFB, with an `M`-byte shift register and `S`-byte feedback;
  * CTR, with a nonce and a wrapping counter, in 128-bit and 64-bit variants.

  The crate's in-place `xor` helper is modelled too, and so is the
  full-block CFB of the `cfb-mode` crate (section 6.3 of NIST SP 800-38A).
* **Triple DES.** This covers the EDE3, EEE3, EDE2 and EEE2 compositions of
  single DES, and splitting the key into big-endian 64-bit key words.

The block cipher is abstract. `BlockCipher.Cipher` is a block size plus a
pair of total functions. `WellFormed` says they map blocks to blocks.
`Invertible` says decryption undoes encryption. Single DES is `Tdes.Des`,
keyed by the 64-bit key word.

Each mode is written in two layers:

* **Specification functions.** These are pure: one step, and the fold of that
  step over a message (`EncryptBlocks`, `ApplyBlocks`, ...). The lemmas are
  about these functions.
* **A class.** It holds the fields the Rust struct updates in place: arrays
  for the IV rings and the feedback block, and a `u8`, `nat`, `u32` or `u64`
  position or counter. Each method's postcondition gives the new state and
  output in full. It also ties them to the specification step.

Files:

* `bytes.dfy`: bytes, `u8`/`u32`/`u64`, big-endian encodings, XOR, modular arithmetic.
* `block_cipher.dfy`: the abstract cipher, blocks, IV chunking, the ring of IV blocks.
* `gost_utils.dfy`: the GOST crate's `xor`.
* `gost_cbc.dfy`, `gost_ofb.dfy`, `gost_cfb.dfy`: the GOST CBC, OFB and CFB modes.
* `gost_ctr.dfy`: the CTR specification, for counters of `w` bytes.
* `gost_ctr128.dfy`, `gost_ctr64.dfy`: `Ctr128Core` (`w = 8`) and `Ctr64Core` (`w = 4`).
* `cfb_mode.dfy`: the `cfb-mode` crate.
* `tdes.dfy`: Triple DES.

## Model

| member | source | states |
|---|---|---|
| GostUtils.Xor | modes/gost-modes/src/utils.rs:2-6 | `buf1` becomes `buf1[i] ^ buf2[i]` over the zipped prefix; its length is kept and `buf2` is untouched |
| GostUtils.XorZipEqualLength | modes/gost-modes/src/utils.rs:3-6 | on equal lengths (the debug assertion) `xor` is the bytewise XOR of the two slices |
| GostUtils.XorZipTwice | modes/gost-modes/src/utils.rs:4-6 | XOR-ing the same `buf2` twice restores `buf1` |
| BlockCipher.Chunks | modes/gost-modes/src/cbc.rs:80-84 | the IV cut into `Z` blocks of `bs` bytes (`chunks_exact`): `Z` blocks, each `bs` bytes long |
| BlockCipher.RingFromIv | modes/gost-modes/src/ofb.rs:100-113 | the initial ring is valid, starts at position 0, and its slots laid end to end give back the IV |
| BlockCipher.RingFromIvRotated | modes/gost-modes/src/ofb.rs:158-167 | right after initialisation, `iv_state`'s rotated read-out is the IV itself |
| GostCbc.EncryptStep | modes/gost-modes/src/cbc.rs:100-109 | one CBC step keeps the chain valid: `Z` slots of one block each, `pos < Z <= 255` |
| GostCbc.DecryptStep | modes/gost-modes/src/cbc.rs:194-204 | one CBC decryption step (output `D(C) xor slot[pos]`, the slot takes `C`, `pos` moves modulo `Z`) keeps the chain valid and yields one block; `DecryptStepUndoesEncryptStep` relates it to `EncryptStep` |
| GostCbc.DecryptStepUndoesEncryptStep | modes/gost-modes/src/cbc.rs:194-204 | decrypting a ciphertext block from the state it was made in gives the plaintext and the same next state |
| GostCbc.RoundTrip | modes/gost-modes/src/cbc.rs:100-109 | an encryptor and a decryptor from the same IV decrypt any message back and end in equal states |
| GostCbc.PositionAfterBlocks | modes/gost-modes/src/cbc.rs:107-108 | after `n` blocks the position is `(pos + n) mod Z` and there are still `Z` slots (so from a fresh start block `j` uses slot `j mod Z`) |
| GostCbc.CbcEncrypt.constructor | modes/gost-modes/src/cbc.rs:79-90 | slot `i` holds IV bytes `i*bs..(i+1)*bs` and `pos` is 0 |
| GostCbc.CbcEncrypt.EncryptBlock | modes/gost-modes/src/cbc.rs:100-109 | output `E(in xor state[pos])`; only `state[pos]` changes, to the output; `pos` steps modulo `Z` without `u8` overflow |
| GostCbc.CbcDecrypt.constructor | modes/gost-modes/src/cbc.rs:172-184 | slot `i` holds IV bytes `i*bs..(i+1)*bs` and `pos` is 0 |
| GostCbc.CbcDecrypt.DecryptBlock | modes/gost-modes/src/cbc.rs:194-204 | output `D(in) xor old state[pos]`; only `state[pos]` changes, to the input; `pos` steps modulo `Z` without overflow |
| GostOfb.Step | modes/gost-modes/src/ofb.rs:181-186 | one OFB step keeps the ring valid and moves `pos` to `(pos + 1) mod Z` |
| GostOfb.ApplyTwice | modes/gost-modes/src/ofb.rs:181-205 | encryption and decryption coincide: applying the keystream twice gives the input back, with equal final states |
| GostOfb.StepRingAfter | modes/gost-modes/src/ofb.rs:138-141 | one step from the ring after `n` blocks gives the ring after `n + 1` and uses keystream block `n` |
| GostOfb.RingAfterBlocks | modes/gost-modes/src/ofb.rs:136-143 | after `n` blocks from a fresh start `pos` is `n mod Z` and slot `i` is IV block `i` encrypted once per use |
| GostOfb.Keystream | modes/gost-modes/src/ofb.rs:136-143 | block `j` is XOR-ed with the first `S` bytes of `E^(j/Z+1)(R_{j mod Z})`, the keystream of section 5.3 of GOST R 34.13-2015 |
| GostOfb.OfbCore.constructor | modes/gost-modes/src/ofb.rs:100-113 | slot `i` holds IV block `i` and `pos` is 0 |
| GostOfb.OfbCore.RemainingBlocks | modes/gost-modes/src/ofb.rs:126-128 | OFB reports no block limit |
| GostOfb.OfbCore.ApplyKeystreamBlocks | modes/gost-modes/src/ofb.rs:130-144 | the loop's final ring and outputs are those of `ApplyBlocks` from the old ring |
| GostOfb.OfbCore.IvState | modes/gost-modes/src/ofb.rs:158-167 | the `Z` slots laid end to end starting at slot `pos`, `Z * bs` bytes |
| GostOfb.OfbCore.EncryptBlock | modes/gost-modes/src/ofb.rs:181-186 | `state[pos]` is encrypted in place, `pos` moves on by a wrapping add modulo `Z`, and the output is the input XOR the first `S` bytes of the new slot |
| GostOfb.OfbCore.DecryptBlock | modes/gost-modes/src/ofb.rs:200-205 | the same transformation as encryption |
| GostCfb.Keystream | modes/gost-modes/src/cfb.rs:125-128 | the keystream `E(reg[..bs])[..S]` of one step is `S` bytes long, the width of one input block |
| GostCfb.EncryptStep | modes/gost-modes/src/cfb.rs:124-134 | the register keeps its length `M` and its last `S` bytes are the ciphertext just produced |
| GostCfb.DecryptStep | modes/gost-modes/src/cfb.rs:147-157 | the register keeps its length `M` and its last `S` bytes are the incoming ciphertext |
| GostCfb.RoundTrip | modes/gost-modes/src/cfb.rs:124-157 | decrypting from the same IV returns the plaintext and ends with the same register, using only the forward cipher |
| GostCfb.RegisterIsSuffix | modes/gost-modes/src/cfb.rs:129-133 | the register is always the last `M` bytes of the IV followed by all ciphertext so far |
| GostCfb.Cfb.constructor | modes/gost-modes/src/cfb.rs:105-111 | the register is a copy of the IV and parameters satisfy `0 < S <= bs <= M` |
| GostCfb.Cfb.EncryptBlock | modes/gost-modes/src/cfb.rs:124-134 | output = input XOR first `S` bytes of `E(iv[..bs])`; new register = `iv[S..] ++ output` |
| GostCfb.Cfb.DecryptBlock | modes/gost-modes/src/cfb.rs:147-157 | output = input XOR first `S` bytes of `E(iv[..bs])`; new register = `iv[S..] ++ input` |
| GostCfb.Cfb.IvState | modes/gost-modes/src/cfb.rs:169-171 | returns the current `M`-byte register |
| GostCtr.CounterBlock | modes/gost-modes/src/ctr128.rs:49-51 | the counter block `nonce_be ++ ctr_be` is `2w` bytes, one cipher block; `CounterBlockDecodes` shows its halves give back nonce and counter |
| GostCtr.CounterBlockDecodes | modes/gost-modes/src/ctr128.rs:49-51 | the counter block's halves decode to the nonce and the counter (big-endian) |
| GostCtr.Next | modes/gost-modes/src/ctr128.rs:53 | the wrapping increment stays below `256^w` |
| GostCtr.AdvanceIsMod | modes/gost-modes/src/ctr64.rs:53 | `n` wrapping increments add `n` modulo `256^w` |
| GostCtr.AdvanceAdd | modes/gost-modes/src/ctr128.rs:123-127 | advancing by `a` then `b` is advancing by `a + b` |
| GostCtr.Step | modes/gost-modes/src/ctr128.rs:48-55 | the counter stays in range and the output is one `S`-byte block |
| GostCtr.ApplyTwice | modes/gost-modes/src/ctr128.rs:139-154 | encryption and decryption coincide: applying the keystream twice gives the input back with equal counters |
| GostCtr.CounterAfter | modes/gost-modes/src/ctr128.rs:117-128 | after `n` blocks the counter has been incremented `n` times |
| GostCtr.Keystream | modes/gost-modes/src/ctr64.rs:48-55 | block `j` is XOR-ed with the first `S` bytes of `E(nonce ‖ (ctr + j mod 256^w))`, the keystream of section 5.2 of GOST R 34.13-2015 |
| GostCtr.CounterBlocksDistinct | modes/gost-modes/src/ctr128.rs:49-53 | within `256^w` blocks no counter block (hence no keystream block input) repeats |
| GostCtr.AdvanceDistinct | modes/gost-modes/src/ctr64.rs:53 | fewer than `256^w` increments never return the counter to an earlier value |
| GostCtr.CounterBlockInjective | modes/gost-modes/src/ctr64.rs:49-51 | different counters give different counter blocks |
| GostCtr.Remaining | modes/gost-modes/src/ctr128.rs:113-115 | `Some` exactly when `MAX - ctr` fits a 64-bit `usize`, and then `ctr + value == MAX` |
| GostCtr.RemainingWithoutWrap | modes/gost-modes/src/ctr64.rs:113-115 | processing at most the remaining number of blocks does not wrap the counter |
| GostCtr.ApplyBlocksAppend | modes/gost-modes/src/ctr128.rs:117-128 | processing `xs ++ ys` is processing `xs`, then `ys` from where it ended |
| GostCtr.SeekAgrees | modes/gost-modes/src/ctr128.rs:166-172 | setting the block position to `ctr + |xs|` (mod `256^w`) then processing `ys` gives the same output and counter as processing `xs ++ ys` |
| GostCtr128.Ctr128Core.constructor | modes/gost-modes/src/ctr128.rs:96-103 | nonce is the big-endian value of the 8-byte IV (and encodes back to it); counter 0 |
| GostCtr128.Ctr128Core.XorBlock | modes/gost-modes/src/ctr128.rs:48-55 | output = input XOR first `S` bytes of `E(nonce_be ‖ ctr_be)`; counter becomes `ctr + 1 mod 2^64`; nonce unchanged |
| GostCtr128.Ctr128Core.EncryptBlock | modes/gost-modes/src/ctr128.rs:139-141 | one `xor_block` step |
| GostCtr128.Ctr128Core.DecryptBlock | modes/gost-modes/src/ctr128.rs:152-154 | one `xor_block` step, the same as encryption |
| GostCtr128.Ctr128Core.ApplyKeystreamBlocks | modes/gost-modes/src/ctr128.rs:117-128 | final counter and outputs equal `ApplyBlocks` from the old counter |
| GostCtr128.Ctr128Core.RemainingBlocks | modes/gost-modes/src/ctr128.rs:113-115 | `Some(2^64 - 1 - ctr)`, agreeing with `GostCtr.Remaining` |
| GostCtr128.Ctr128Core.GetBlockPos | modes/gost-modes/src/ctr128.rs:166-168 | returns the counter |
| GostCtr128.Ctr128Core.SetBlockPos | modes/gost-modes/src/ctr128.rs:170-172 | sets the counter and nothing else (the nonce is a constant) |
| GostCtr64.Ctr64Core.constructor | modes/gost-modes/src/ctr64.rs:96-103 | nonce is the big-endian value of the 4-byte IV (and encodes back to it); counter 0 |
| GostCtr64.Ctr64Core.XorBlock | modes/gost-modes/src/ctr64.rs:48-55 | output = input XOR first `S` bytes of `E(nonce_be ‖ ctr_be)`; counter becomes `ctr + 1 mod 2^32`; nonce unchanged |
| GostCtr64.Ctr64Core.EncryptBlock | modes/gost-modes/src/ctr64.rs:139-141 | one `xor_block` step |
| GostCtr64.Ctr64Core.DecryptBlock | modes/gost-modes/src/ctr64.rs:152-154 | one `xor_block` step, the same as encryption |
| GostCtr64.Ctr64Core.ApplyKeystreamBlocks | modes/gost-modes/src/ctr64.rs:117-128 | final counter and outputs equal `ApplyBlocks` from the old counter |
| GostCtr64.Ctr64Core.RemainingBlocks | modes/gost-modes/src/ctr64.rs:113-115 | `Some(2^32 - 1 - ctr)`, agreeing with `GostCtr.Remaining` |
| GostCtr64.Ctr64Core.GetBlockPos | modes/gost-modes/src/ctr64.rs:166-168 | returns the counter |
| GostCtr64.Ctr64Core.SetBlockPos | modes/gost-modes/src/ctr64.rs:170-172 | sets the counter and nothing else (the nonce is a constant) |
| CfbMode.EncryptStep | modes/cfb-mode/src/lib.rs:28-32 | the new register and the output are the same block |
| CfbMode.DecryptStep | modes/cfb-mode/src/lib.rs:36-42 | the new register is the incoming ciphertext block |
| CfbMode.RoundTrip | modes/cfb-mode/src/lib.rs:28-42 | decrypting from the same IV returns the plaintext and ends with the encryptor's register |
| CfbMode.DecryptAllAt | modes/cfb-mode/src/lib.rs:50-61 | plaintext block `j` is `E(previous ciphertext or IV) xor ciphertext j`; the final register is the last ciphertext block |
| CfbMode.DecryptAllFromBlocks | modes/cfb-mode/src/lib.rs:57-61 | outputs that match that formula block by block are exactly the sequential decryption |
| CfbMode.AgreesWithGostCfb | modes/gost-modes/src/cfb.rs:29-30 | with `M = S =` block size, GOST CFB encryption equals this mode's |
| CfbMode.DecryptAgreesWithGostCfb | modes/gost-modes/src/cfb.rs:29-30 | with `M = S =` block size, GOST CFB decryption equals this mode's |
| CfbMode.Xor | modes/cfb-mode/src/lib.rs:98-103 | fails (`ok` false, buffer untouched) exactly when the lengths differ; otherwise XORs bytewise in place |
| CfbMode.Cfb.constructor | modes/cfb-mode/src/lib.rs:83-88 | the register is a copy of the IV |
| CfbMode.Cfb.EncryptBlock | modes/cfb-mode/src/lib.rs:28-32 | register becomes `E(iv) xor input`, and that is the output |
| CfbMode.Cfb.DecryptBlock | modes/cfb-mode/src/lib.rs:36-42 | output `E(iv) xor input`; register becomes the input |
| CfbMode.Cfb.DecryptBlocks | modes/cfb-mode/src/lib.rs:44-64 | the batch gives the same outputs and final register as sequential single-block decryption, and the register ends as the last input block |
| CfbMode.Cfb.IvState | modes/cfb-mode/src/lib.rs:92-94 | returns the current register |
| Tdes.KeyWord | des/src/tdes.rs:29-31 | key word `i` encodes back to key bytes `8i..8i+8` |
| Tdes.NewEde3 | des/src/tdes.rs:28-36 | the three key words' big-endian encodings concatenate to the 24-byte key |
| Tdes.NewEee3 | des/src/tdes.rs:84-92 | the three key words' big-endian encodings concatenate to the 24-byte key |
| Tdes.NewEde2 | des/src/tdes.rs:143-149 | the two key words' big-endian encodings concatenate to the 16-byte key |
| Tdes.NewEee2 | des/src/tdes.rs:200-206 | the two key words' big-endian encodings concatenate to the 16-byte key |
| Tdes.Ede3Encrypt | des/src/tdes.rs:42-50 | output is one 8-byte block; the stage-by-stage composition is `Ede3Stages` |
| Tdes.Ede3Decrypt | des/src/tdes.rs:54-62 | output is one 8-byte block; the stage-by-stage composition is `Ede3Stages` |
| Tdes.Eee3Encrypt | des/src/tdes.rs:102-110 | output is one 8-byte block; the stage-by-stage composition is `Eee3Stages` |
| Tdes.Eee3Decrypt | des/src/tdes.rs:114-122 | output is one 8-byte block; the stage-by-stage composition is `Eee3Stages` |
| Tdes.Ede2Encrypt | des/src/tdes.rs:159-167 | output is one 8-byte block; the stage-by-stage composition is `Ede2Stages` |
| Tdes.Ede2Decrypt | des/src/tdes.rs:171-179 | output is one 8-byte block; the stage-by-stage composition is `Ede2Stages` |
| Tdes.Eee2Encrypt | des/src/tdes.rs:216-224 | output is one 8-byte block; the stage-by-stage composition is `Eee2Stages` |
| Tdes.Eee2Decrypt | des/src/tdes.rs:228-236 | output is one 8-byte block; the stage-by-stage composition is `Eee2Stages` |
| Tdes.Ede3Stages | des/src/tdes.rs:41-62 | encryption is `E(k3)` after `D(k2)` after `E(k1)` on the 8-byte block; decryption is `D(k1)` after `E(k2)` after `D(k3)` |
| Tdes.Eee3Stages | des/src/tdes.rs:101-122 | encryption is `E(k3)` after `E(k2)` after `E(k1)`; decryption is `D(k1)` after `D(k2)` after `D(k3)` |
| Tdes.Ede2Stages | des/src/tdes.rs:158-179 | encryption is `E(k1)` after `D(k2)` after `E(k1)`; decryption is `D(k1)` after `E(k2)` after `D(k1)` |
| Tdes.Eee2Stages | des/src/tdes.rs:215-236 | encryption is `E(k1)` after `E(k2)` after `E(k1)`; decryption is `D(k1)` after `D(k2)` after `D(k1)` |
| Tdes.Ede3RoundTrip | des/src/tdes.rs:41-63 | given single DES is a permutation, EDE3 decryption and encryption are mutual inverses |
| Tdes.Eee3RoundTrip | des/src/tdes.rs:101-123 | EEE3 decryption and encryption are mutual inverses |
| Tdes.Ede2RoundTrip | des/src/tdes.rs:158-180 | EDE2 decryption and encryption are mutual inverses |
| Tdes.Eee2RoundTrip | des/src/tdes.rs:215-237 | EEE2 decryption and encryption are mutual inverses |
| Tdes.TwoKeyIsThreeKey | des/src/tdes.rs:162-164 | a two-key variant with key `K` is the three-key variant with key `K ++ K[..8]` (`k1` reused as the third stage), both directions |
| Tdes.Ede3OneKeyIsDes | des/src/tdes.rs:45-47 | with `k1 = k2 = k3`, EDE3 is single DES in both directions |
| Tdes.Ede3Cipher | des/src/tdes.rs:19-25 | EDE3 as a well-formed block cipher with 8-byte blocks, usable in every mode above except CTR-128, which needs 16-byte blocks |
| Tdes.Ede3CipherInvertible | des/src/tdes.rs:41-63 | that block cipher is invertible |
| Tdes.DebugAsWritten | des/src/tdes.rs:65-69 | as written; every variant except `TdesEde3` prints its own name |
| Tdes.DebugAsWrittenConfusesEde3 | des/src/tdes.rs:65-69 | `TdesEde3` prints the `TdesEee3` name, so the two are indistinguishable |
| Tdes.Debug | des/src/tdes.rs:125-129 | the corrected output starts with the struct's own name |
| Tdes.DebugInjective | des/src/tdes.rs:182-186 | with the corrected output the four variants' `Debug` strings are pairwise different |

## Left out

- The real DES, AES, Kuznyechik and Magma round functions and key schedules (`gen_keys`, `Des::encrypt`/`decrypt`) are not part of this model. The ciphers are abstract functions, and the key schedule is folded into the key word.
- The AES crate's hardware/software dispatch and its module wiring have no stateable logic beyond delegation. The benchmarks are left out too.
- `StreamCipherCoreWrapper` byte buffering and the `Padding` re-export are not part of this model.
- The `pre_fn`/`post_fn` callbacks are left out. They are observers with no effect on the state.
- `InOut`/`InOutBuf` aliasing is not modelled. Input and output are separate sequences here.
- `Clone` and `AlgorithmName` are left out. So is `Debug`, except where it shows the finding below.
- GostUtils.Xor: models the release build. The `debug_assert_eq!` on the lengths is not a precondition; `XorZipEqualLength` covers the equal-length case.
- Tdes.Des.Permutes: requires both `D(k, E(k, x)) == x` and `E(k, D(k, x)) == x`. Single DES is a bijection on 64-bit blocks, so each follows from the other. Only the first is the usual statement of the inverse law.
- CfbMode.Cfb.DecryptBlocks: the cipher's `encrypt_blocks_with_pre_mut` is external. The model takes its effect to be `tmp[i] = E(input[i])`, and treats the batch as one chunk. Several chunks carry `enc_iv` across and give the same result.
- CfbMode.Cfb.DecryptBlocks: requires a nonempty batch. The source indexes `in_buf[len - 1]`.
- CfbMode.Xor: the `assert_eq!` panic becomes an `ok = false` result with the buffer left alone.
- GostOfb.OfbCore.IvState: builds the result by appending slot after slot rather than writing at offsets `bs * i`. The bytes are the same.
- GostOfb.OfbCore: `pos` is a `nat` below `Z`, and `Z` blocks must fit in one Rust object. `pos.wrapping_add(1)` therefore never wraps. The wrap is still modelled by `WrappingAdd`.
- `usize` is 64 bits wide. On such targets the `try_into` in the CTR `remaining_blocks` always succeeds.
- Tdes.Ede3Encrypt: its own contract states only the block length. The composition is in its body, which follows the source stage by stage; `Ede3Stages` states it at the block level, and `Ede3RoundTrip` is proved about that body.
- Tdes.Ede3Decrypt: its own contract states only the block length. The composition is in its body, which follows the source stage by stage; `Ede3Stages` states it at the block level, and `Ede3RoundTrip` is proved about that body.
- Tdes.Eee3Encrypt: its own contract states only the block length. The composition is in its body, which follows the source stage by stage; `Eee3Stages` states it at the block level, and `Eee3RoundTrip` is proved about that body.
- Tdes.Eee3Decrypt: its own contract states only the block length. The composition is in its body, which follows the source stage by stage; `Eee3Stages` states it at the block level, and `Eee3RoundTrip` is proved about that body.
- Tdes.Ede2Encrypt: its own contract states only the block length. The composition is in its body, which follows the source stage by stage; `Ede2Stages` states it at the block level, and `Ede2RoundTrip` is proved about that body.
- Tdes.Ede2Decrypt: its own contract states only the block length. The composition is in its body, which follows the source stage by stage; `Ede2Stages` states it at the block level, and `Ede2RoundTrip` is proved about that body.
- Tdes.Eee2Encrypt: its own contract states only the block length. The composition is in its body, which follows the source stage by stage; `Eee2Stages` states it at the block level, and `Eee2RoundTrip` is proved about that body.
- Tdes.Eee2Decrypt: its own contract states only the block length. The composition is in its body, which follows the source stage by stage; `Eee2Stages` states it at the block level, and `Eee2RoundTrip` is proved about that body.
- The GOST CBC mode has no `iv_state` implementation, so there is nothing to model for it.

## Findings

| source | as written | input that shows it | evidently intended | confidence | as-written member | corrected member |
|---|---|---|---|---|---|---|
| des/src/tdes.rs:65-69 | `Debug` for `TdesEde3` writes `"TdesEee3 { ... }"` | any `TdesEde3` value, e.g. all key words 0 | `"TdesEde3 { ... }"`, as each other variant prints its own name (tdes.rs:125-129, 182-186, 239-243) | high; not executed | Tdes.DebugAsWritten (see Tdes.DebugAsWrittenConfusesEde3) | Tdes.Debug (see Tdes.DebugInjective) |
