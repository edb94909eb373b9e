# XTS block mode, modelled in Dafny

This project models the XTS mode of operation of `block-modes/src/xts.rs`:
XEX-based tweaked codebook with ciphertext stealing, as IEEE Std 1619-2007
defines it. An `Xts` instance holds a data cipher and a running 16-byte
tweak. It is built either from a cipher and a tweak (`new`) or from
double-length key material and an IV (`new_var`). It encrypts or decrypts
a caller-owned byte buffer in place. A final partial block is handled by
ciphertext stealing, so the buffer length never changes.

The project has four modules:

- `Utils` (`utils.dfy`): bytes and 16-byte blocks, and XOR of blocks.
  - `NextTweak` is the tweak doubling. It is proved to be multiplication
    by x modulo x^128 + x^7 + x^2 + x + 1, coefficient by coefficient.
  - The in-place buffer steps are `XorInPlace`, `Store` and `Swap`. `Swap`
    is a left rotation of a buffer suffix.
- `BlockCipher` (`block_cipher.dfy`): the underlying 128-bit cipher, seen
  only through its contract.
  - It has a key size, a key schedule that may refuse a key, and
    encrypt/decrypt functions of a key and a block.
  - `Valid()` says that decryption undoes encryption under the same key.
    The round-trip lemmas require it.
  - `Permutation()` says that encryption also undoes decryption, as for
    any block cipher. The locality lemma uses it to show that a changed
    ciphertext block gives a changed plaintext block.
- `XtsSpec` (`xts_spec.dfy`): XTS on values, following IEEE Std 1619-2007.
  - `TweakAt` gives the tweak sequence of section 5.2. `XexEncrypt` and
    `XexDecrypt` transform one block.
  - `EncryptFull` and `DecryptFull` are the full-block passes.
  - `XtsEncrypt` and `XtsDecrypt` process a data unit with ciphertext
    stealing (sections 5.3.2 and 5.4.2).
  - The mode's properties are proved here: round trip, length
    preservation, per-block locality, and stealing leaving earlier blocks
    alone.
- `XtsMode` (`xts.dfy`): the `Xts` class, with a `tweak` field that the
  methods update in place, and array buffers that they overwrite.
  - Each method is proved to leave the buffer equal to the matching
    `XtsSpec` function of the old buffer and tweak.
  - Each method is also proved to leave the tweak at a known point of the
    tweak sequence.

A few cases where the code and the usual description of XTS differ follow
the code:

- `encrypt` accepts any length that is a multiple of 16, including 0. Only
  a non-aligned length must be at least 16.
- `new_var` also reports a key that the cipher's key schedule refuses as
  `InvalidKeyIvLength`, not only a wrong length.
- The doc comment of the `Xts` struct (block-modes/src/xts.rs:14-15) says
  that `new` ignores its IV, but `new` stores the IV as the tweak (line
  31). `Xts.New` follows the code: its tweak is the given IV.

## Model

| member | source | states |
|---|---|---|
| Utils.NextTweak | block-modes/src/xts.rs:62 | `get_next_tweak`, as called at lines 62, 71 and 108: the 16 bytes shifted up one bit as a little-endian 128-bit value, with 0x87 into byte 0 when the top bit falls out; its meaning is stated by NextTweakMultipliesByX |
| Utils.Xor | block-modes/src/xts.rs:59-61 | `xor`, as called at lines 59, 61, 68, 70, 91, 93, 113, 115, 123 and 125: bytewise XOR of a block with the tweak; XorCancel states that it undoes itself |
| Utils.NextTweakMultipliesByX | block-modes/src/xts.rs:62 | every coefficient of the next tweak is that of x times the old tweak modulo x^128 + x^7 + x^2 + x + 1 (tweak doubling, IEEE 1619-2007 section 5.2) |
| Utils.XorCancel | block-modes/src/xts.rs:59-61 | XORing the same tweak twice gives the block back, which is why the whitening around the cipher call cancels on decryption |
| Utils.XorInPlace | block-modes/src/xts.rs:59 | `xor` changes exactly the 16 bytes at the block's offset, each to itself XOR the tweak byte; all other bytes stay |
| Utils.Swap | block-modes/src/xts.rs:90 | `swap` of a suffix by k bytes leaves the prefix alone and rotates the suffix left by k: each byte is taken from k places further on, wrapping round |
| BlockCipher.DecryptEncrypt | block-modes/src/xts.rs:60 | under a valid cipher, decrypting a block encrypted under the same key gives it back |
| BlockCipher.EncryptBlockInPlace | block-modes/src/xts.rs:60 | `encrypt_block` replaces exactly the block at the offset with its encryption |
| BlockCipher.DecryptBlockInPlace | block-modes/src/xts.rs:69 | `decrypt_block` replaces exactly the block at the offset with its decryption |
| XtsSpec.TweakAt | block-modes/src/xts.rs:58-63 | T_i, the tweak the loop holds when it reaches block i: the initial tweak doubled i times; EncryptBlocks and DecryptBlocks state that the loops follow it |
| XtsSpec.XexEncrypt | block-modes/src/xts.rs:59-61 | one block under tweak T: T XOR E(P XOR T); XexRoundTrip states its inverse |
| XtsSpec.XexDecrypt | block-modes/src/xts.rs:68-70 | one block under tweak T: T XOR D(C XOR T); XexRoundTrip and XexDecryptInjective state its properties |
| BlockCipher.DecryptInjective | block-modes/src/xts.rs:69 | under a cipher that is a permutation, distinct blocks decrypt to distinct blocks |
| XtsSpec.XexDecryptInjective | block-modes/src/xts.rs:68-70 | under a cipher that is a permutation, XEX decryption under a fixed tweak maps distinct blocks to distinct blocks |
| XtsSpec.XexRoundTrip | block-modes/src/xts.rs:57-73 | the decrypt-blocks transform of one block under tweak T undoes the encrypt-blocks transform under the same T |
| XtsSpec.EncryptFull | block-modes/src/xts.rs:57-64 | the full-block encryption pass preserves length |
| XtsSpec.DecryptFull | block-modes/src/xts.rs:66-73 | the full-block decryption pass preserves length |
| XtsSpec.EncryptFullBlock | block-modes/src/xts.rs:57-64 | ciphertext block i of the pass is T_i XOR E(P_i XOR T_i), with T_i the initial tweak doubled i times |
| XtsSpec.DecryptFullBlock | block-modes/src/xts.rs:66-73 | plaintext block i of the pass is T_i XOR D(C_i XOR T_i) |
| XtsSpec.EncryptFullStep | block-modes/src/xts.rs:58-63 | one more loop iteration appends the next block, transformed under the next tweak, to the pass |
| XtsSpec.DecryptFullStep | block-modes/src/xts.rs:67-72 | one more loop iteration of the decryption pass appends the next block, decrypted under the next tweak |
| XtsSpec.EncryptStepInPlace | block-modes/src/xts.rs:58-63 | transforming block i in place under T_i turns the buffer after i iterations into the buffer after i + 1 |
| XtsSpec.DecryptStepInPlace | block-modes/src/xts.rs:67-72 | the same for decryption |
| XtsSpec.EncryptFullPrefix | block-modes/src/xts.rs:57-64 | encrypting a prefix of whole blocks gives the same prefix of the full pass: a block's ciphertext does not depend on later blocks |
| XtsSpec.FullRoundTrip | block-modes/src/xts.rs:57-73 | decrypt_blocks from the same initial tweak inverts encrypt_blocks |
| XtsSpec.XtsEncrypt | block-modes/src/xts.rs:78-97 | encryption of a data unit with ciphertext stealing preserves its length |
| XtsSpec.XtsDecrypt | block-modes/src/xts.rs:100-127 | decryption of a data unit preserves its length |
| XtsSpec.EncryptAlignedInPlace | block-modes/src/xts.rs:83-84 | with a length that is a multiple of 16, including 0, `encrypt` is exactly the full-block pass |
| XtsSpec.EncryptStealingInPlace | block-modes/src/xts.rs:84-95 | rotating the last 16 bytes left by 16 - r, encrypting that block under T_n, then rotating the last 16 + r bytes left by r yields the IEEE 1619-2007 section 5.3.2 ciphertext |
| XtsSpec.DecryptStealingInPlace | block-modes/src/xts.rs:106-125 | decrypting the last full block under T_n, rotating left by 16 and by r, then decrypting block n - 1 under T_(n-1) yields the IEEE 1619-2007 section 5.4.2 plaintext |
| XtsSpec.DecryptAlignedInPlace | block-modes/src/xts.rs:122-125 | without a partial block, decrypting the last block under T_(n-1) completes the decryption |
| XtsSpec.XtsRoundTrip | block-modes/src/xts.rs:78-127 | for every buffer of at least 16 bytes, decryption from the same key and initial tweak restores the plaintext, aligned or not |
| XtsSpec.StolenRoundTrip | block-modes/src/xts.rs:84-125 | the round trip with a partial final block: the exchange of decryption undoes that of encryption |
| XtsSpec.StealingKeepsEarlierBlocks | block-modes/src/xts.rs:84-95 | with a partial final block, the bytes before 16 (n - 1) are exactly those of the full-block pass: stealing changes nothing earlier |
| XtsSpec.DecryptFullLocality | block-modes/src/xts.rs:66-73 | changing ciphertext block i changes no byte of the full-block decryption outside block i |
| XtsSpec.DecryptLocality | block-modes/src/xts.rs:100-127 | for any block i other than the two that stealing involves, changing ciphertext block i changes no plaintext byte outside block i; under a cipher that is a permutation, plaintext block i changes exactly when ciphertext block i does, so a change corrupts exactly that block |
| XtsSpec.DecryptBlockAt | block-modes/src/xts.rs:100-127 | plaintext block i of the whole decryption is ciphertext block i decrypted under T_i, for every block outside the two that stealing involves |
| XtsSpec.StolenBlockAt | block-modes/src/xts.rs:104 | with a partial final block, every block before the last full one is the output of the decryption pass at line 104 |
| XtsSpec.StolenLocality | block-modes/src/xts.rs:106-125 | the locality of decryption with a partial final block: the stolen region is the same in both inputs, so it is the same in both outputs |
| XtsMode.NewVarSetup | block-modes/src/xts.rs:36-55 | returns an error exactly when the key is not twice the key size, the IV is not 16 bytes, or the key schedule refuses either half; otherwise the data cipher is keyed with the first half and the tweak is the IV encrypted under the second half |
| XtsMode.LengthErrorPrecedesCipher | block-modes/src/xts.rs:38-40 | a wrong key or IV length gives `InvalidKeyIvLength` whatever the cipher and its key schedule do: no cipher is consulted |
| XtsMode.Xts.New | block-modes/src/xts.rs:27-34 | `new` stores the given cipher and takes the given tweak verbatim |
| XtsMode.Xts.NewVar | block-modes/src/xts.rs:36-55 | fails exactly when NewVarSetup does; on success it returns a fresh instance holding NewVarSetup's cipher and initial tweak |
| XtsMode.Xts.XexEncryptAt | block-modes/src/xts.rs:59-61 | xor, encrypt_block, xor replaces exactly the block at the offset with its XEX encryption under the given tweak |
| XtsMode.Xts.XexDecryptAt | block-modes/src/xts.rs:68-70 | xor, decrypt_block, xor replaces exactly the block at the offset with its XEX decryption under the given tweak |
| XtsMode.Xts.EncryptBlocks | block-modes/src/xts.rs:57-64 | `encrypt_blocks` over count blocks leaves the buffer equal to the pass over those blocks, with the rest untouched, and the tweak at T_count |
| XtsMode.Xts.DecryptBlocks | block-modes/src/xts.rs:66-73 | `decrypt_blocks` over count blocks leaves the buffer equal to the decryption pass over those blocks, with the rest untouched, and the tweak at T_count |
| XtsMode.Xts.EncryptStolenTail | block-modes/src/xts.rs:89-94 | the buffer after each of the three stealing steps: rotate the last block, XEX-encrypt it under the given tweak, rotate the last 16 + r bytes |
| XtsMode.Xts.EncryptStolen | block-modes/src/xts.rs:84-95 | after the full-block pass over n blocks with the tweak at T_n, the stealing steps leave the buffer equal to XtsEncrypt of the plaintext |
| XtsMode.Xts.Encrypt | block-modes/src/xts.rs:78-97 | `encrypt` turns the buffer into XtsEncrypt of the old buffer under the old tweak, returns it as `Ok`, and leaves the tweak at T_(len / 16) |
| XtsMode.Xts.DecryptStolenPair | block-modes/src/xts.rs:112-119 | the buffer after each step of the exchange: XEX-decrypt block n - 1 under the given tweak, then rotate left by 16 and by r |
| XtsMode.Xts.DecryptStolenTail | block-modes/src/xts.rs:106-121 | the exchange runs under the next tweak, and the parked tweak is restored afterwards |
| XtsMode.Xts.DecryptStolen | block-modes/src/xts.rs:106-121 | after the decryption pass over n - 1 blocks, the exchange keeps the tweak at T_(n-1), and decrypting block n - 1 under it then gives XtsDecrypt of the ciphertext |
| XtsMode.Xts.DecryptBeforeLast | block-modes/src/xts.rs:106-121 | with or without a partial block, the tweak is unchanged and the final decryption of block n - 1 under T_(n-1) completes XtsDecrypt |
| XtsMode.Xts.Decrypt | block-modes/src/xts.rs:100-127 | `decrypt` turns the buffer into XtsDecrypt of the old buffer under the old tweak, returns it as `Ok`, and leaves the tweak at T_(len / 16 - 1) |
| XtsMode.Xts.EncryptVec | block-modes/src/xts.rs:130-137 | `encrypt_vec` returns XtsEncrypt of the plaintext under the instance's tweak |
| XtsMode.Xts.DecryptVec | block-modes/src/xts.rs:139-147 | `decrypt_vec` returns `Ok` of XtsDecrypt of the ciphertext under the instance's tweak |

## Left out

- The underlying block cipher, its key schedule and `new_varkey` are foreign code. They are abstract functions of the `Algorithm` value. A refused key is `acceptsKey` returning false, and decryption inverting encryption is the `Valid()` precondition of the round-trip lemmas.
- The padding type parameter and its `PhantomData` marker are not modelled: XTS never pads.
- The `generic_array` / `typenum` size machinery is not modelled. The block size is fixed at 16 by the `Block` type, which stands in for the block-size assertions at lines 28 and 37.
- The ignored position argument of `encrypt` is not a parameter of `Encrypt`.
- Rust move semantics are not modelled: `encrypt` and `decrypt` consume the instance. The model keeps the instance and states the tweak it leaves behind, so a caller must not reuse it for another data unit.
- Buffers shorter than 16 bytes with a partial block, for `encrypt`, and buffers shorter than 16 bytes, for `decrypt`, are excluded by preconditions. There the source underflows (`buffer_length - bs` at line 87, `num_of_full_blocks - 1` at line 104).
- The `std` feature gate on `encrypt_vec` and `decrypt_vec` is not modelled. Their `Vec` copies are fresh arrays.
- XtsMode.Xts.EncryptVec: the `panic!` branch of `encrypt_vec` is not modelled, because `Encrypt` always returns `Ok`.
- The `utils` helpers (`xor`, `swap`, `get_next_tweak`, `to_blocks`, `to_blocks_uneven`) are imported at line 6, but utils.rs is not part of this model. Their behaviour is assumed: bytewise XOR, left rotation of a slice, multiplication by x in GF(2^128), and slicing into 16-byte blocks. The equivalence of `Encrypt` and `Decrypt` with IEEE 1619-2007 sections 5.3.2 and 5.4.2 (EncryptStealingInPlace, DecryptStealingInPlace) holds under the reading of `swap(s, k)` as `s[k..] + s[..k]`; a right rotation would not give the section 5.3.2 ciphertext.
- `encrypt` and `decrypt` are split into helper methods in the model (`EncryptStolen`, `DecryptBeforeLast` and the methods they call). Together these run the same steps, in the same order, as the source's single function bodies.
