/** The XTS block mode (block-modes/src/xts.rs): an object holding the data
    cipher and the running tweak, constructed from a cipher and a tweak or
    from two-part key material and an IV, that encrypts or decrypts a
    caller-owned buffer in place, with ciphertext stealing for a final
    partial block. Each method is proved equal to the IEEE 1619-2007
    definition in XtsSpec. */
module XtsMode {
  import opened Utils
  import opened BlockCipher
  import opened XtsSpec

  datatype InvalidKeyIvLength = InvalidKeyIvLength

  /** The error type of the buffer operations; XTS never produces it. */
  datatype BlockModeError = BlockModeError

  /** What a constructed instance holds: the data cipher and the tweak of
      block 0. */
  datatype Setup = Setup(cipher: Cipher, tweak: Block)

  /** What `new_var` computes. The lengths are checked before any cipher is
      built; the first half of the key keys the data cipher, the second
      half keys a tweak cipher that encrypts the IV into the first tweak.
      A key the schedule refuses is reported as InvalidKeyIvLength too. */
  function NewVarSetup(alg: Algorithm, key: seq<byte>, iv: seq<byte>): (r: Result<Setup, InvalidKeyIvLength>)
    ensures r.Err? <==>
      |key| != 2 * alg.keySize || |iv| != 16
      || !alg.acceptsKey(key[..alg.keySize]) || !alg.acceptsKey(key[alg.keySize..])
    ensures r.Ok? ==>
      |iv| == 16 && r.value.cipher == Cipher(alg, key[..alg.keySize])
      && r.value.tweak == alg.encrypt(key[alg.keySize..], iv)
  {
    if |key| != alg.keySize * 2 || |iv| != 16 then Err(InvalidKeyIvLength)
    else if !alg.acceptsKey(key[..alg.keySize]) then Err(InvalidKeyIvLength)
    else if !alg.acceptsKey(key[alg.keySize..]) then Err(InvalidKeyIvLength)
    else
      var tweakCipher := Cipher(alg, key[alg.keySize..]);
      Ok(Setup(Cipher(alg, key[..alg.keySize]), tweakCipher.EncryptBlock(iv)))
  }

  /** Key or IV material of the wrong length is refused whatever the cipher
      does: the outcome does not depend on the key schedule or on the
      cipher's functions at all. */
  lemma LengthErrorPrecedesCipher(alg1: Algorithm, alg2: Algorithm, key: seq<byte>, iv: seq<byte>)
    requires alg1.keySize == alg2.keySize
    requires |key| != 2 * alg1.keySize || |iv| != 16
    ensures NewVarSetup(alg1, key, iv) == NewVarSetup(alg2, key, iv) == Err(InvalidKeyIvLength)
  {
  }

  class Xts {
    /** The data cipher. */
    const cipher: Cipher
    /** The tweak of the next block to be processed. */
    var tweak: Block

    /** `new`: the given tweak is used verbatim (the caller has already
        encrypted it under the tweak key, if it means to). */
    constructor New(cipher: Cipher, iv: Block)
      ensures this.cipher == cipher && tweak == iv
    {
      this.cipher := cipher;
      tweak := iv;
    }

    /** `new_var`: builds an instance from key material and an IV. */
    static method NewVar(alg: Algorithm, key: seq<byte>, iv: seq<byte>) returns (r: Result<Xts, InvalidKeyIvLength>)
      ensures r.Err? <==> NewVarSetup(alg, key, iv).Err?
      ensures r.Ok? ==>
        fresh(r.value)
        && r.value.cipher == NewVarSetup(alg, key, iv).value.cipher
        && r.value.tweak == NewVarSetup(alg, key, iv).value.tweak
    {
      if |key| != alg.keySize * 2 || |iv| != 16 {
        return Err(InvalidKeyIvLength);
      }
      if !alg.acceptsKey(key[..alg.keySize]) {
        return Err(InvalidKeyIvLength);
      }
      var cipher := Cipher(alg, key[..alg.keySize]);
      if !alg.acceptsKey(key[alg.keySize..]) {
        return Err(InvalidKeyIvLength);
      }
      var tweakCipher := Cipher(alg, key[alg.keySize..]);
      var tweak: Block := iv;
      tweak := tweakCipher.EncryptBlock(tweak);
      var x := new Xts.New(cipher, tweak);
      return Ok(x);
    }

    /** xor, encrypt_block, xor on the block at byte offset lo, under
        tweak t. */
    method XexEncryptAt(buf: array<byte>, lo: nat, t: Block)
      requires lo + 16 <= buf.Length
      modifies buf
      ensures buf[..] == Splice(old(buf[..]), lo, XexEncrypt(cipher, t, old(buf[lo..lo + 16])))
    {
      ghost var s, b := buf[..], buf[lo..lo + 16];
      XorInPlace(buf, lo, t);
      SpliceTwice(s, lo, Xor(b, t), cipher.EncryptBlock(Xor(b, t)));
      EncryptBlockInPlace(cipher, buf, lo);
      SpliceTwice(s, lo, cipher.EncryptBlock(Xor(b, t)), XexEncrypt(cipher, t, b));
      XorInPlace(buf, lo, t);
    }

    /** xor, decrypt_block, xor on the block at byte offset lo, under
        tweak t. */
    method XexDecryptAt(buf: array<byte>, lo: nat, t: Block)
      requires lo + 16 <= buf.Length
      modifies buf
      ensures buf[..] == Splice(old(buf[..]), lo, XexDecrypt(cipher, t, old(buf[lo..lo + 16])))
    {
      ghost var s, b := buf[..], buf[lo..lo + 16];
      XorInPlace(buf, lo, t);
      SpliceTwice(s, lo, Xor(b, t), cipher.DecryptBlock(Xor(b, t)));
      DecryptBlockInPlace(cipher, buf, lo);
      SpliceTwice(s, lo, cipher.DecryptBlock(Xor(b, t)), XexDecrypt(cipher, t, b));
      XorInPlace(buf, lo, t);
    }

    /** `encrypt_blocks` over the first count blocks of buf: block i is
        encrypted under T_i, the rest of buf is left alone, and the tweak
        ends at T_count. */
    method EncryptBlocks(buf: array<byte>, count: nat)
      requires 16 * count <= buf.Length
      modifies this, buf
      ensures buf[..] == EncryptedUpTo(cipher, old(tweak), old(buf[..]), count)
      ensures tweak == TweakAt(old(tweak), count)
    {
      ghost var t0, p := tweak, buf[..];
      assert p == EncryptedUpTo(cipher, t0, p, 0);
      for i := 0 to count
        invariant buf[..] == EncryptedUpTo(cipher, t0, p, i)
        invariant tweak == TweakAt(t0, i)
      {
        XexEncryptAt(buf, 16 * i, tweak);
        EncryptStepInPlace(cipher, t0, p, i);
        tweak := NextTweak(tweak);
      }
    }

    /** `decrypt_blocks` over the first count blocks of buf: block i is
        decrypted under T_i, the rest of buf is left alone, and the tweak
        ends at T_count. */
    method DecryptBlocks(buf: array<byte>, count: nat)
      requires 16 * count <= buf.Length
      modifies this, buf
      ensures buf[..] == DecryptedUpTo(cipher, old(tweak), old(buf[..]), count)
      ensures tweak == TweakAt(old(tweak), count)
    {
      ghost var t0, b := tweak, buf[..];
      assert b == DecryptedUpTo(cipher, t0, b, 0);
      for i := 0 to count
        invariant buf[..] == DecryptedUpTo(cipher, t0, b, i)
        invariant tweak == TweakAt(t0, i)
      {
        XexDecryptAt(buf, 16 * i, tweak);
        DecryptStepInPlace(cipher, t0, b, i);
        tweak := NextTweak(tweak);
      }
    }

    /** The stealing steps of `encrypt`: the suffix from lo1 is rotated
        left by k bytes, the block at lo1 is encrypted under tweak t, and
        the suffix from lo2 is rotated left by r bytes. s2 and s3 are the
        buffer after the first and second steps. */
    method EncryptStolenTail(buf: array<byte>, lo1: nat, k: nat, t: Block, lo2: nat, r: nat) returns (ghost s2: seq<byte>, ghost s3: seq<byte>)
      requires lo1 + 16 <= buf.Length && k <= 16 && lo2 + r <= buf.Length
      modifies buf
      ensures s2 == RotateSuffix(old(buf[..]), lo1, k)
      ensures s3 == Splice(s2, lo1, XexEncrypt(cipher, t, s2[lo1..lo1 + 16]))
      ensures buf[..] == RotateSuffix(s3, lo2, r)
    {
      Swap(buf, lo1, k);
      s2 := buf[..];
      XexEncryptAt(buf, lo1, t);
      s3 := buf[..];
      Swap(buf, lo2, r);
    }

    /** Lines 84-95 of `encrypt`, after the full-block pass over all n
        full blocks: ciphertext stealing for a final partial block of r
        bytes. */
    method EncryptStolen(buf: array<byte>, ghost t0: Block, ghost p: seq<byte>, n: nat, lastBlockIndex: nat, lo2: nat, r: nat)
      requires buf.Length == |p| == 16 * n + r && 0 < r < 16 && n >= 1
      requires lastBlockIndex == |p| - 16 && lo2 == |p| - r - 16
      requires buf[..] == EncryptedUpTo(cipher, t0, p, n)
      requires tweak == TweakAt(t0, n)
      modifies buf
      ensures buf[..] == XtsEncrypt(cipher, t0, p)
    {
      ghost var s1 := buf[..];
      ghost var s2, s3 := EncryptStolenTail(buf, lastBlockIndex, 16 - r, tweak, lo2, r);
      EncryptStealingInPlace(cipher, t0, p, n, 16 * (n - 1), lastBlockIndex, lo2, r, s1, s2, s3, buf[..]);
    }

    /** `encrypt`: encrypts the whole buffer in place. The position argument
        of the source is ignored there and is not modelled. */
    method Encrypt(buf: array<byte>) returns (r: Result<seq<byte>, BlockModeError>)
      requires buf.Length % 16 == 0 || buf.Length >= 16
      modifies this, buf
      ensures buf[..] == XtsEncrypt(cipher, old(tweak), old(buf[..]))
      ensures tweak == TweakAt(old(tweak), buf.Length / 16)
      ensures r == Ok(buf[..])
    {
      ghost var t0, p := tweak, buf[..];
      var bufferLength := buf.Length;
      EncryptBlocks(buf, buf.Length / 16);
      if bufferLength % 16 != 0 {
        var encryptedLen := (bufferLength / 16) * 16;
        var leftover := bufferLength - encryptedLen;
        var lastBlockIndex := bufferLength - 16;
        EncryptStolen(buf, t0, p, buf.Length / 16, lastBlockIndex, bufferLength - leftover - 16, leftover);
      } else {
        EncryptAlignedInPlace(cipher, t0, p, buf.Length / 16);
      }
      r := Ok(buf[..]);
    }

    /** The exchange of `decrypt` for a final partial block: the full
        block at offset m is decrypted under tweak t, then the suffix from
        lo1 is rotated left by 16 bytes and the one from lo2 by r bytes.
        s2 and s3 are the buffer after the first and second steps. */
    method DecryptStolenPair(buf: array<byte>, m: nat, t: Block, lo1: nat, lo2: nat, r: nat) returns (ghost s2: seq<byte>, ghost s3: seq<byte>)
      requires m + 16 <= buf.Length && lo1 + 16 <= buf.Length && lo2 + r <= buf.Length
      modifies buf
      ensures s2 == Splice(old(buf[..]), m, XexDecrypt(cipher, t, old(buf[m..m + 16])))
      ensures s3 == RotateSuffix(s2, lo1, 16)
      ensures buf[..] == RotateSuffix(s3, lo2, r)
    {
      XexDecryptAt(buf, m, t);
      s2 := buf[..];
      Swap(buf, lo1, 16);
      s3 := buf[..];
      Swap(buf, lo2, r);
    }

    /** The branch of `decrypt` for a final partial block: the current
        tweak is parked while the exchange runs under the next one, and
        restored afterwards. */
    method DecryptStolenTail(buf: array<byte>, m: nat, lo1: nat, lo2: nat, r: nat) returns (ghost s2: seq<byte>, ghost s3: seq<byte>)
      requires m + 16 <= buf.Length && lo1 + 16 <= buf.Length && lo2 + r <= buf.Length
      modifies this, buf
      ensures tweak == old(tweak)
      ensures s2 == Splice(old(buf[..]), m, XexDecrypt(cipher, NextTweak(old(tweak)), old(buf[m..m + 16])))
      ensures s3 == RotateSuffix(s2, lo1, 16)
      ensures buf[..] == RotateSuffix(s3, lo2, r)
    {
      var secondToLastTweak := tweak;
      tweak := NextTweak(tweak);
      s2, s3 := DecryptStolenPair(buf, m, tweak, lo1, lo2, r);
      tweak := secondToLastTweak;
    }

    /** Lines 106-121 of `decrypt` after the full-block pass over all but
        the last full block: once the exchange has run, decrypting the
        block at offset m under the restored tweak T_(n-1) completes the
        decryption of b. */
    method DecryptStolen(buf: array<byte>, ghost t0: Block, ghost b: seq<byte>, n: nat, m: nat, lo1: nat, lo2: nat, r: nat)
      requires buf.Length == |b| == 16 * n + r && 0 < r < 16 && n >= 1 && m == 16 * (n - 1)
      requires lo1 == buf.Length - r - 16 && lo2 == buf.Length - 16
      requires buf[..] == DecryptedUpTo(cipher, t0, b, n - 1)
      requires tweak == TweakAt(t0, n - 1)
      modifies this, buf
      ensures tweak == old(tweak)
      ensures Splice(buf[..], m, XexDecrypt(cipher, TweakAt(t0, n - 1), buf[m..m + 16])) == XtsDecrypt(cipher, t0, b)
    {
      ghost var s1 := buf[..];
      ghost var s2, s3 := DecryptStolenTail(buf, m, lo1, lo2, r);
      DecryptStealingInPlace(cipher, t0, b, n, m, lo1, lo2, r, s1, s2, s3, buf[..]);
    }

    /** Lines 106-121 of `decrypt`: with a final partial block, the
        exchange; without one, nothing. Either way, what is left to do is
        decrypting the block at offset 16 (n - 1) under T_(n-1). */
    method DecryptBeforeLast(buf: array<byte>, ghost t0: Block, ghost b: seq<byte>, n: nat)
      requires buf.Length == |b| && n == |b| / 16 && n >= 1
      requires buf[..] == DecryptedUpTo(cipher, t0, b, n - 1)
      requires tweak == TweakAt(t0, n - 1)
      modifies this, buf
      ensures tweak == old(tweak)
      ensures Splice(buf[..], 16 * (n - 1), XexDecrypt(cipher, TweakAt(t0, n - 1), buf[16 * (n - 1)..16 * (n - 1) + 16])) == XtsDecrypt(cipher, t0, b)
    {
      var bufferLength := buf.Length;
      if bufferLength % 16 != 0 {
        var leftover := bufferLength - (bufferLength / 16) * 16;
        DecryptStolen(buf, t0, b, n, 16 * (n - 1), bufferLength - leftover - 16, bufferLength - 16, leftover);
      } else {
        DecryptAlignedInPlace(cipher, t0, b, n, buf[..]);
      }
    }

    /** `decrypt`: decrypts the whole buffer in place. With a partial final
        block, T_(n-1) is parked while the last full block is decrypted
        under T_n, and restored for the block the stealing exchange
        recovers. */
    method Decrypt(buf: array<byte>) returns (r: Result<seq<byte>, BlockModeError>)
      requires buf.Length >= 16
      modifies this, buf
      ensures buf[..] == XtsDecrypt(cipher, old(tweak), old(buf[..]))
      ensures tweak == TweakAt(old(tweak), buf.Length / 16 - 1)
      ensures r == Ok(buf[..])
    {
      ghost var t0, b := tweak, buf[..];
      var numOfFullBlocks := buf.Length / 16;
      DecryptBlocks(buf, numOfFullBlocks - 1);
      DecryptBeforeLast(buf, t0, b, numOfFullBlocks);
      XexDecryptAt(buf, 16 * (numOfFullBlocks - 1), tweak);
      r := Ok(buf[..]);
    }

    /** `encrypt_vec`: copies the plaintext into a new buffer and encrypts
        that. The source panics if `encrypt` fails, which it never does. */
    method EncryptVec(plaintext: seq<byte>) returns (out: seq<byte>)
      requires |plaintext| % 16 == 0 || |plaintext| >= 16
      modifies this
      ensures out == XtsEncrypt(cipher, old(tweak), plaintext)
      ensures tweak == TweakAt(old(tweak), |plaintext| / 16)
    {
      var buf := new byte[|plaintext|](i requires 0 <= i < |plaintext| => plaintext[i]);
      assert buf[..] == plaintext;
      var r := Encrypt(buf);
      out := r.value;
    }

    /** `decrypt_vec`: copies the ciphertext into a new buffer, decrypts
        that and passes on the result of `decrypt`. */
    method DecryptVec(ciphertext: seq<byte>) returns (r: Result<seq<byte>, BlockModeError>)
      requires |ciphertext| >= 16
      modifies this
      ensures r == Ok(XtsDecrypt(cipher, old(tweak), ciphertext))
      ensures tweak == TweakAt(old(tweak), |ciphertext| / 16 - 1)
    {
      var buf := new byte[|ciphertext|](i requires 0 <= i < |ciphertext| => ciphertext[i]);
      assert buf[..] == ciphertext;
      var res := Decrypt(buf);
      match res
      case Ok(_) => r := Ok(buf[..]);
      case Err(e) => r := Err(e);
    }
  }
}
