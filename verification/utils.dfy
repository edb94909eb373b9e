/** Byte-level helpers the XTS mode is built from: bytewise XOR of blocks,
    multiplication of a tweak by x in GF(2^128), and the in-place rotation
    used for ciphertext stealing. */
module Utils {

  type byte = bv8

  /** A 16-byte block: XTS accepts only ciphers with a 128-bit block. */
  type Block = s: seq<byte> | |s| == 16 witness seq(16, _ => 0)

  datatype Result<T, E> = Ok(value: T) | Err(error: E)

  /** Bytewise XOR of two blocks (`xor`). */
  function Xor(a: Block, b: Block): Block
  {
    seq(16, i requires 0 <= i < 16 => a[i] ^ b[i])
  }

  /** XOR with the same block twice is the identity: the tweak whitening
      applied before and after the cipher call undoes itself. */
  lemma XorCancel(a: Block, b: Block)
    ensures Xor(Xor(a, b), b) == a
  {
    forall i | 0 <= i < 16 ensures Xor(Xor(a, b), b)[i] == a[i] {
      assert (a[i] ^ b[i]) ^ b[i] == a[i];
    }
  }

  /** Multiplication of a tweak by x in GF(2^128) (`get_next_tweak`): the
      16 bytes are a 128-bit little-endian value, shifted left by one bit;
      when the bit shifted out of the top was set, 0x87 is XORed into
      byte 0. */
  function NextTweak(t: Block): Block
  {
    seq(16, i requires 0 <= i < 16 => NextTweakByte(t, i))
  }

  /** Byte i of NextTweak(t): byte i shifted up by one bit, taking in the
      bit shifted out of byte i - 1 (for byte 0, the reduction by 0x87). */
  function NextTweakByte(t: Block, i: nat): byte
    requires i < 16
  {
    if i == 0 then (t[0] << 1) ^ (if t[15] >> 7 == 1 then 0x87 else 0)
    else (t[i] << 1) | (t[i - 1] >> 7)
  }

  // The polynomial reading of a tweak: bit k of byte i is the coefficient
  // of x^(8 i + k).

  function Mask(k: nat): byte
    requires k < 8
  {
    (1 as byte) << k
  }

  predicate Bit(b: byte, k: nat)
    requires k < 8
  {
    b & Mask(k) != 0
  }

  /** Coefficient of x^j in the polynomial a block stands for. */
  predicate Coefficient(t: Block, j: nat)
    requires j < 128
  {
    Bit(t[j / 8], j % 8)
  }

  /** Coefficient of x^j in x * t(x) mod x^128 + x^7 + x^2 + x + 1: the
      coefficients move up by one and the one leaving x^127 comes back as
      x^7 + x^2 + x + 1. */
  predicate ProductByXCoefficient(t: Block, j: nat)
    requires j < 128
  {
    (j > 0 && Coefficient(t, j - 1)) != (Coefficient(t, 127) && (j == 0 || j == 1 || j == 2 || j == 7))
  }

  /** NextTweak is multiplication by x modulo the XTS reduction polynomial
      x^128 + x^7 + x^2 + x + 1, coefficient by coefficient: bit k of byte
      i takes bit k - 1 of byte i (bit 7 of byte i - 1 when k is 0), and
      the reduction flips the coefficients of x^7, x^2, x and 1 exactly
      when the coefficient of x^127 was set. */
  lemma NextTweakMultipliesByX(t: Block)
    ensures forall j :: 0 <= j < 128 ==> Coefficient(NextTweak(t), j) == ProductByXCoefficient(t, j)
  {
  }

  /** A multiple of the block size leaves no partial block. */
  lemma MultipleOfBlock(k: nat, m: nat)
    requires m == 16 * k
    ensures m % 16 == 0
  {
  }

  /** s with the 16 bytes at offset lo replaced by b. */
  function Splice(s: seq<byte>, lo: nat, b: Block): (r: seq<byte>)
    requires lo + 16 <= |s|
    ensures |r| == |s|
  {
    s[..lo] + b + s[lo + 16..]
  }

  /** s with its suffix from offset lo rotated left by k bytes. */
  function RotateSuffix(s: seq<byte>, lo: nat, k: nat): (r: seq<byte>)
    requires lo + k <= |s|
    ensures |r| == |s|
  {
    s[..lo] + s[lo + k..] + s[lo..lo + k]
  }

  lemma SpliceTwice(s: seq<byte>, lo: nat, a: Block, b: Block)
    requires lo + 16 <= |s|
    ensures Splice(s, lo, a)[lo..lo + 16] == a
    ensures Splice(Splice(s, lo, a), lo, b) == Splice(s, lo, b)
  {
    var s1 := Splice(s, lo, a);
    assert s1[..lo] == s[..lo];
    assert s1[lo + 16..] == s[lo + 16..];
  }

  /** `xor(block, tweak)` on the block at byte offset lo of a buffer. */
  method XorInPlace(buf: array<byte>, lo: nat, t: Block)
    requires lo + 16 <= buf.Length
    modifies buf
    ensures buf[..] == Splice(old(buf[..]), lo, Xor(old(buf[lo..lo + 16]), t))
  {
    for i := 0 to 16
      invariant forall j :: 0 <= j < i ==> buf[lo + j] == old(buf[lo + j]) ^ t[j]
      invariant forall j :: 0 <= j < buf.Length && !(lo <= j < lo + i) ==> buf[j] == old(buf[j])
    {
      buf[lo + i] := buf[lo + i] ^ t[i];
    }
  }

  /** Overwrites the 16 bytes at offset lo with b. */
  method Store(buf: array<byte>, lo: nat, b: Block)
    requires lo + 16 <= buf.Length
    modifies buf
    ensures buf[..] == Splice(old(buf[..]), lo, b)
  {
    for i := 0 to 16
      invariant forall j :: 0 <= j < i ==> buf[lo + j] == b[j]
      invariant forall j :: 0 <= j < buf.Length && !(lo <= j < lo + i) ==> buf[j] == old(buf[j])
    {
      buf[lo + i] := b[i];
    }
  }

  /** `swap(&mut buffer[lo..], k)`: the suffix from offset lo is rotated
      left by k bytes. */
  method Swap(buf: array<byte>, lo: nat, k: nat)
    requires lo + k <= buf.Length
    modifies buf
    ensures buf[..] == RotateSuffix(old(buf[..]), lo, k)
  {
    ghost var r := RotateSuffix(buf[..], lo, k);
    var s := buf[..];
    assert r[..lo] == s[..lo];
    for i := lo to buf.Length
      invariant forall j :: 0 <= j < i ==> buf[j] == r[j]
      invariant forall j :: i <= j < buf.Length ==> buf[j] == s[j]
    {
      // byte i of the rotated suffix comes from k bytes further on,
      // wrapping round to the start of the suffix
      var from := if i + k < buf.Length then i + k else i + k - (buf.Length - lo);
      buf[i] := s[from];
    }
  }
}
