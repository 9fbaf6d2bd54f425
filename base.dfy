/** Shared vocabulary: bytes, characters, and the Option/Result wrappers used for
    the error paths of the hybrid cipher. */
module Base {

  /** One byte of a file, by its value. */
  type byte = x: int | 0 <= x < 0x100

  function Pow2(n: nat): (p: nat)
    ensures p >= 1
  {
    if n == 0 then 1 else 2 * Pow2(n - 1)
  }

  /** Bitwise exclusive or of the low `n` bits of `a` and `b`, lowest bit
      first. */
  function XorBits(a: nat, b: nat, n: nat): (r: nat)
    ensures r < Pow2(n)
  {
    if n == 0 then 0 else 2 * XorBits(a / 2, b / 2, n - 1) + (if a % 2 == b % 2 then 0 else 1)
  }

  /** Exclusive or of two byte values: how the abstract GCM keystream is
      applied to a byte of plaintext or ciphertext. */
  function Xor(a: byte, b: byte): byte
  {
    XorBits(a, b, 8)
  }

  /** Exclusive or with the same value twice gives back the low `n` bits. */
  lemma {:induction false} XorBitsTwice(a: nat, b: nat, n: nat)
    requires a < Pow2(n)
    ensures XorBits(XorBits(a, b, n), b, n) == a
  {
    if n > 0 {
      var c := XorBits(a, b, n);
      XorBitsHalves(a, b, n);
      assert a / 2 < Pow2(n - 1);
      XorBitsTwice(a / 2, b / 2, n - 1);
      var high := XorBits(c / 2, b / 2, n - 1);
      var low := if c % 2 == b % 2 then 0 else 1;
      assert high == a / 2;
      assert low == a % 2;
      assert XorBits(c, b, n) == 2 * high + low;
    }
  }

  /** The low bit of `XorBits` and the bits above it. */
  lemma XorBitsHalves(a: nat, b: nat, n: nat)
    requires n > 0
    ensures XorBits(a, b, n) / 2 == XorBits(a / 2, b / 2, n - 1)
    ensures XorBits(a, b, n) % 2 == if a % 2 == b % 2 then 0 else 1
  {
  }

  /** `(x ^ k) ^ k == x` for bytes. */
  lemma XorTwice(x: byte, k: byte)
    ensures Xor(Xor(x, k), k) == x
  {
    XorBitsTwice(x, k, 8);
  }

  /** The filler character the transposition grid pads its last row with. */
  const NUL: char := '\0'

  datatype Option<+T> = None | Some(value: T)

  datatype Result<+T, +E> = Ok(value: T) | Err(error: E)

  function Min(a: int, b: int): int
  {
    if a <= b then a else b
  }

  /** No position of `s` holds the filler character. */
  predicate NoNul(s: seq<char>)
  {
    forall i :: 0 <= i < |s| ==> s[i] != NUL
  }
}
