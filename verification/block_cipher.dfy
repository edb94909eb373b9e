/** The underlying 128-bit block cipher, seen only through its contract:
    a key size, a key schedule that may refuse a key (`new_varkey`), and
    encrypt-one-block / decrypt-one-block under a key. Its internals are not
    part of this model; what the mode relies on is the predicate Valid(). */
module BlockCipher {
  import opened Utils

  datatype Algorithm = Algorithm(
    keySize: nat,
    acceptsKey: seq<byte> -> bool,
    encrypt: (seq<byte>, Block) -> Block,
    decrypt: (seq<byte>, Block) -> Block)
  {
    /** Decryption under a key undoes encryption under the same key. */
    ghost predicate Valid()
    {
      forall k: seq<byte>, b: Block :: decrypt(k, encrypt(k, b)) == b
    }

    /** Under each key the cipher is a permutation of blocks: encryption
        also undoes decryption, so decryption is one-to-one. Mathematically
        this follows from Valid(): an injective map on the finite set of
        16-byte blocks is also onto. It is stated separately only because
        that counting argument is not one the verifier makes cheaply, so a
        lemma that requires it assumes nothing beyond the inverse
        property. */
    ghost predicate Permutation()
    {
      forall k: seq<byte>, b: Block :: encrypt(k, decrypt(k, b)) == b
    }
  }

  /** A keyed instance of the cipher (a value of the cipher type `C`). */
  datatype Cipher = Cipher(alg: Algorithm, key: seq<byte>)
  {
    function EncryptBlock(b: Block): Block
    {
      alg.encrypt(key, b)
    }

    function DecryptBlock(b: Block): Block
    {
      alg.decrypt(key, b)
    }
  }

  lemma DecryptEncrypt(c: Cipher, b: Block)
    requires c.alg.Valid()
    ensures c.DecryptBlock(c.EncryptBlock(b)) == b
  {
  }

  /** Under a cipher that is a permutation, distinct blocks decrypt to
      distinct blocks. */
  lemma DecryptInjective(c: Cipher, x: Block, y: Block)
    requires c.alg.Permutation()
    ensures c.DecryptBlock(x) == c.DecryptBlock(y) ==> x == y
  {
    assert c.EncryptBlock(c.DecryptBlock(x)) == x;
    assert c.EncryptBlock(c.DecryptBlock(y)) == y;
  }

  /** `encrypt_block` on the block at byte offset lo of a buffer. */
  method EncryptBlockInPlace(c: Cipher, buf: array<byte>, lo: nat)
    requires lo + 16 <= buf.Length
    modifies buf
    ensures buf[..] == Splice(old(buf[..]), lo, c.EncryptBlock(old(buf[lo..lo + 16])))
  {
    Store(buf, lo, c.EncryptBlock(buf[lo..lo + 16]));
  }

  /** `decrypt_block` on the block at byte offset lo of a buffer. */
  method DecryptBlockInPlace(c: Cipher, buf: array<byte>, lo: nat)
    requires lo + 16 <= buf.Length
    modifies buf
    ensures buf[..] == Splice(old(buf[..]), lo, c.DecryptBlock(old(buf[lo..lo + 16])))
  {
    Store(buf, lo, c.DecryptBlock(buf[lo..lo + 16]));
  }
}
