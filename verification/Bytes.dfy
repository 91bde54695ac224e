/** Bytes, exclusive or on naturals bit by bit, and 16-byte block ciphers. */
module Bytes {

  newtype byte = x: int | 0 <= x < 256

  // ----- exclusive or -----

  /** Bitwise exclusive or. */
  function Xor(a: nat, b: nat): (r: nat)
    decreases a + b
  {
    if a == 0 && b == 0 then 0 else (a + b) % 2 + 2 * Xor(a / 2, b / 2)
  }

  lemma XorParts(a: nat, b: nat)
    ensures Xor(a, b) / 2 == Xor(a / 2, b / 2) && Xor(a, b) % 2 == (a + b) % 2
  {
  }

  lemma Parity(a: nat, b: nat, x: nat)
    requires x % 2 == (a + b) % 2
    ensures (x + b) % 2 == a % 2
  {
  }

  lemma {:induction false} XorUndoes(a: nat, b: nat)
    ensures Xor(Xor(a, b), b) == a
    decreases a + b
  {
    if a > 0 || b > 0 {
      XorUndoes(a / 2, b / 2);
      XorParts(a, b);
      XorParts(Xor(a, b), b);
      hide Xor;
      Parity(a, b, Xor(a, b));
    }
  }

  lemma {:induction false} XorBelow(a: nat, b: nat, bound: nat)
    requires a < Pow2(bound) && b < Pow2(bound)
    ensures Xor(a, b) < Pow2(bound)
    decreases bound
  {
    if a == 0 && b == 0 {
    } else {
      XorBelow(a / 2, b / 2, bound - 1);
    }
  }

  function Pow2(n: nat): (p: nat)
    ensures p > 0
  {
    if n == 0 then 1 else 2 * Pow2(n - 1)
  }

  /** The exclusive or of two bytes. */
  function XorByte(a: byte, b: byte): (r: byte) {
    assert Pow2(8) == 256;
    XorBelow(a as nat, b as nat, 8);
    Xor(a as nat, b as nat) as byte
  }

  lemma XorByteUndoes(a: byte, b: byte)
    ensures XorByte(XorByte(a, b), b) == a
  {
    XorUndoes(a as nat, b as nat);
  }

  function XorBytes(a: seq<byte>, b: seq<byte>): (r: seq<byte>)
    requires |a| == |b|
    ensures |r| == |a|
  {
    seq(|a|, i requires 0 <= i < |a| => XorByte(a[i], b[i]))
  }

  lemma XorBytesUndoes(a: seq<byte>, b: seq<byte>)
    requires |a| == |b|
    ensures XorBytes(XorBytes(a, b), b) == a
  {
    forall i | 0 <= i < |a| ensures XorBytes(XorBytes(a, b), b)[i] == a[i] {
      XorByteUndoes(a[i], b[i]);
    }
  }

  lemma Cut<T>(a: seq<T>, b: seq<T>)
    ensures (a + b)[..|a|] == a && (a + b)[|a|..] == b
  {
  }

  // ----- block ciphers -----

  const BLOCK := 16

  type Block = b: seq<byte> | |b| == BLOCK witness seq(BLOCK, _ => 0)

  datatype Permutation = Permutation(E: Block -> Block, D: Block -> Block)

  /** AES under one key: a permutation of 16-byte blocks with its inverse. */
  type Cipher = c: Permutation | (forall b: Block :: c.D(c.E(b)) == b) ghost witness Permutation((b: Block) => b, (b: Block) => b)
}
