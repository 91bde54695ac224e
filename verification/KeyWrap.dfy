/** crypto/encrypt.go, KeyWrap: the AES key wrap of RFC 3394, with the step counter cut down to one byte. */
module KeyWrap {
  import opened Options
  import opened Bytes
  import Padding

  const HALF := 8

  type Half = h: seq<byte> | |h| == HALF witness seq(HALF, _ => 0)

  const KEYWRAP_IV: Half := [0xa6, 0xa6, 0xa6, 0xa6, 0xa6, 0xa6, 0xa6, 0xa6]

  /** The register A, and the registers R[1..n] one after the other (with the rest of the key, if any). */
  datatype Registers = Registers(a: Half, r: seq<byte>)

  /** What is xored into A at step t. */
  type Mask = nat -> Half

  function Shift(t: nat, bytes: nat): (r: nat) {
    if bytes == 0 then t else Shift(t / 256, bytes - 1)
  }

  /** Section 2.2.1 of RFC 3394: t as a 64-bit number. */
  function RfcMask(t: nat): (r: Half) { seq(HALF, i requires 0 <= i < HALF => (Shift(t, HALF - 1 - i) % 256) as byte) }

  /** The Go code: the lowest byte of t, into the last byte of A. */
  function CodeMask(t: nat): (r: Half) { seq(HALF, i => if i == HALF - 1 then (t % 256) as byte else 0) }

  // ----- wrapping and unwrapping, step by step -----

  /** Step on register R[i + 1]. */
  function WrapStep(c: Cipher, s: Registers, i: nat, mask: Half): (q: Registers)
    requires (i + 1) * HALF <= |s.r|
    ensures |q.r| == |s.r|
  {
    var out := c.E(s.a + s.r[i * HALF..(i + 1) * HALF]);
    Registers(XorBytes(out[..HALF], mask), s.r[..i * HALF] + out[HALF..] + s.r[(i + 1) * HALF..])
  }

  /** Section 2.2.2 of RFC 3394. */
  function UnwrapStep(c: Cipher, s: Registers, i: nat, mask: Half): (q: Registers)
    requires (i + 1) * HALF <= |s.r|
    ensures |q.r| == |s.r|
  {
    var b := c.D(XorBytes(s.a, mask) + s.r[i * HALF..(i + 1) * HALF]);
    Registers(b[..HALF], s.r[..i * HALF] + b[HALF..] + s.r[(i + 1) * HALF..])
  }

  lemma StepUndone(c: Cipher, s: Registers, i: nat, mask: Half)
    requires (i + 1) * HALF <= |s.r|
    ensures UnwrapStep(c, WrapStep(c, s, i, mask), i, mask) == s
  {
    var lo, hi := s.r[..i * HALF], s.r[(i + 1) * HALF..];
    var input: Block := s.a + s.r[i * HALF..(i + 1) * HALF];
    var out := c.E(input);
    var r := lo + out[HALF..] + hi;
    XorBytesUndoes(out[..HALF], mask);
    assert r[i * HALF..(i + 1) * HALF] == out[HALF..] && r[..i * HALF] == lo && r[(i + 1) * HALF..] == hi;
    assert out[..HALF] + out[HALF..] == out;
    Cut(s.a, s.r[i * HALF..(i + 1) * HALF]);
    assert lo + s.r[i * HALF..(i + 1) * HALF] + hi == s.r;
  }

  /** The first i steps of a round, with the counter at `base` before it. */
  function WrapRound(c: Cipher, mask: Mask, s: Registers, base: nat, i: nat): (q: Registers)
    requires i * HALF <= |s.r|
    ensures |q.r| == |s.r|
    decreases i
  {
    if i == 0 then s else WrapStep(c, WrapRound(c, mask, s, base, i - 1), i - 1, mask(base + i))
  }

  /** Undoes the steps i, i - 1, .., 1 of a round. */
  function UnwrapRound(c: Cipher, mask: Mask, s: Registers, base: nat, i: nat): (q: Registers)
    requires i * HALF <= |s.r|
    ensures |q.r| == |s.r|
    decreases i
  {
    if i == 0 then s else UnwrapRound(c, mask, UnwrapStep(c, s, i - 1, mask(base + i)), base, i - 1)
  }

  /** `rounds` rounds over n registers. */
  function WrapRounds(c: Cipher, mask: Mask, n: nat, s: Registers, base: nat, rounds: nat): (q: Registers)
    requires n * HALF <= |s.r|
    ensures |q.r| == |s.r|
    decreases rounds
  {
    if rounds == 0 then s else WrapRounds(c, mask, n, WrapRound(c, mask, s, base, n), base + n, rounds - 1)
  }

  function UnwrapRounds(c: Cipher, mask: Mask, n: nat, s: Registers, base: nat, rounds: nat): (q: Registers)
    requires n * HALF <= |s.r|
    ensures |q.r| == |s.r|
    decreases rounds
  {
    if rounds == 0 then s else UnwrapRound(c, mask, UnwrapRounds(c, mask, n, s, base + n, rounds - 1), base, n)
  }

  lemma {:induction false} RoundUndone(c: Cipher, mask: Mask, s: Registers, base: nat, i: nat)
    requires i * HALF <= |s.r|
    ensures UnwrapRound(c, mask, WrapRound(c, mask, s, base, i), base, i) == s
    decreases i
  {
    hide WrapStep, UnwrapStep;
    if i > 0 {
      StepUndone(c, WrapRound(c, mask, s, base, i - 1), i - 1, mask(base + i));
      RoundUndone(c, mask, s, base, i - 1);
    }
  }

  lemma {:induction false} RoundsUndone(c: Cipher, mask: Mask, n: nat, s: Registers, base: nat, rounds: nat)
    requires n * HALF <= |s.r|
    ensures UnwrapRounds(c, mask, n, WrapRounds(c, mask, n, s, base, rounds), base, rounds) == s
    decreases rounds
  {
    hide WrapStep, UnwrapStep;
    if rounds > 0 {
      RoundUndone(c, mask, s, base, n);
      RoundsUndone(c, mask, n, WrapRound(c, mask, s, base, n), base + n, rounds - 1);
    }
  }

  const ROUNDS := 6

  function Wrap(c: Cipher, mask: Mask, key: seq<byte>): (r: seq<byte>) {
    var s := WrapRounds(c, mask, |key| / HALF, Registers(KEYWRAP_IV, key), 0, ROUNDS);
    s.a + s.r
  }

  /** The initial value and the key that unwrapping finds. */
  function Unwrap(c: Cipher, mask: Mask, wrapped: seq<byte>): (r: Registers)
    requires |wrapped| >= HALF
  {
    UnwrapRounds(c, mask, |wrapped| / HALF - 1, Registers(wrapped[..HALF], wrapped[HALF..]), 0, ROUNDS)
  }

  /** Unwrapping recovers the key and the initial value, for a key of any length and whatever is xored into A
      at each step, as long as both sides agree on it. */
  lemma UnwrapUndoesWrap(c: Cipher, mask: Mask, key: seq<byte>)
    ensures |Wrap(c, mask, key)| == HALF + |key|
    ensures Unwrap(c, mask, Wrap(c, mask, key)) == Registers(KEYWRAP_IV, key)
  {
    hide WrapStep, UnwrapStep;
    WrappedRegisters(WrapRounds(c, mask, |key| / HALF, Registers(KEYWRAP_IV, key), 0, ROUNDS), key);
    RoundsUndone(c, mask, |key| / HALF, Registers(KEYWRAP_IV, key), 0, ROUNDS);
  }

  lemma WrappedRegisters(s: Registers, key: seq<byte>)
    requires |s.r| == |key|
    ensures |s.a + s.r| / HALF - 1 == |key| / HALF
    ensures Registers((s.a + s.r)[..HALF], (s.a + s.r)[HALF..]) == s
  {
    Cut(s.a, s.r);
  }

  // ----- the Go code against the standard -----

  lemma {:induction false} SmallShift(t: nat, bytes: nat)
    requires t < 256 && bytes > 0
    ensures Shift(t, bytes) == 0
    decreases bytes
  {
    if bytes > 1 {
      SmallShift(t / 256, bytes - 1);
    }
  }

  lemma SmallMask(t: nat)
    requires t < 256
    ensures CodeMask(t) == RfcMask(t)
  {
    forall i | 0 <= i < HALF ensures CodeMask(t)[i] == RfcMask(t)[i] {
      if i < HALF - 1 {
        SmallShift(t, HALF - 1 - i);
        assert RfcMask(t)[i] == 0;
      } else {
        assert RfcMask(t)[i] as int == Shift(t, 0) % 256;
      }
    }
  }

  /** The number of steps in some rounds of n. */
  function Steps(n: nat, rounds: nat): (r: nat) {
    if rounds == 0 then 0 else n + Steps(n, rounds - 1)
  }

  lemma AllSteps(n: nat)
    ensures Steps(n, ROUNDS) == 6 * n
  {
    assert Steps(n, 1) == n + Steps(n, 0) == n;
    assert Steps(n, 2) == n + Steps(n, 1);
    assert Steps(n, 3) == n + Steps(n, 2);
    assert Steps(n, 4) == n + Steps(n, 3);
    assert Steps(n, 5) == n + Steps(n, 4);
    assert Steps(n, 6) == n + Steps(n, 5);
  }

  lemma {:induction false} SmallRound(c: Cipher, s: Registers, base: nat, i: nat)
    requires i * HALF <= |s.r| && base + i <= 255
    ensures WrapRound(c, CodeMask, s, base, i) == WrapRound(c, RfcMask, s, base, i)
    decreases i
  {
    if i > 0 {
      SmallRound(c, s, base, i - 1);
      SmallMask(base + i);
    }
  }

  lemma {:induction false} SmallRounds(c: Cipher, n: nat, s: Registers, base: nat, rounds: nat)
    requires n * HALF <= |s.r| && base + Steps(n, rounds) <= 255
    ensures WrapRounds(c, CodeMask, n, s, base, rounds) == WrapRounds(c, RfcMask, n, s, base, rounds)
    decreases rounds
  {
    hide WrapStep, UnwrapStep;
    if rounds > 0 {
      SmallRound(c, s, base, n);
      SmallRounds(c, n, WrapRound(c, RfcMask, s, base, n), base + n, rounds - 1);
    }
  }

  const IDENTITY: Cipher := Permutation((b: Block) => b, (b: Block) => b)

  lemma IdentityStep(s: Registers, i: nat, mask: Half)
    requires (i + 1) * HALF <= |s.r|
    ensures WrapStep(IDENTITY, s, i, mask) == Registers(XorBytes(s.a, mask), s.r)
  {
    var block := s.r[i * HALF..(i + 1) * HALF];
    Cut(s.a, block);
    assert s.r[..i * HALF] + block + s.r[(i + 1) * HALF..] == s.r;
  }

  /** Byte p of A after k steps that only mask it. */
  function Masked(mask: Mask, x: byte, p: nat, k: nat): (r: byte)
    requires p < HALF
  {
    if k == 0 then x else XorByte(Masked(mask, x, p, k - 1), mask(k)[p])
  }

  lemma {:induction false} IdentityRound(mask: Mask, s: Registers, base: nat, i: nat, x: byte, p: nat)
    requires i * HALF <= |s.r| && p < HALF && s.a[p] == Masked(mask, x, p, base)
    ensures WrapRound(IDENTITY, mask, s, base, i).a[p] == Masked(mask, x, p, base + i)
    decreases i
  {
    hide WrapStep, XorByte;
    if i > 0 {
      IdentityRound(mask, s, base, i - 1, x, p);
      IdentityStep(WrapRound(IDENTITY, mask, s, base, i - 1), i - 1, mask(base + i));
    }
  }

  lemma {:induction false} IdentityRounds(mask: Mask, n: nat, s: Registers, base: nat, rounds: nat, x: byte, p: nat)
    requires n * HALF <= |s.r| && p < HALF && s.a[p] == Masked(mask, x, p, base)
    ensures WrapRounds(IDENTITY, mask, n, s, base, rounds).a[p] == Masked(mask, x, p, base + Steps(n, rounds))
    decreases rounds
  {
    hide WrapStep, WrapRound, Masked, XorByte;
    if rounds > 0 {
      IdentityRound(mask, s, base, n, x, p);
      IdentityRounds(mask, n, WrapRound(IDENTITY, mask, s, base, n), base + n, rounds - 1, x, p);
    }
  }

  lemma {:induction false} XorZero(a: nat)
    ensures Xor(a, 0) == a
  {
    if a > 0 {
      XorZero(a / 2);
    }
  }

  lemma {:induction false} XorChanges(a: nat, b: nat)
    requires Xor(a, b) == a
    ensures b == 0
    decreases a + b
  {
    if a + b > 0 {
      XorChanges(a / 2, b / 2);
    }
  }

  /** The code leaves all bytes of A but the last alone. */
  lemma {:induction false} CodeKeepsHighBytes(x: byte, p: nat, k: nat)
    requires p < HALF - 1
    ensures Masked(CodeMask, x, p, k) == x
  {
    if k > 0 {
      CodeKeepsHighBytes(x, p, k - 1);
      XorZero(x as nat);
    }
  }

  /** An odd count has the same high bytes as the even one before it. */
  lemma SameHighBytes(k: nat, p: nat)
    requires k % 2 == 1 && p < HALF - 1
    ensures RfcMask(k)[p] == RfcMask(k - 1)[p]
  {
    SameShift(k, HALF - 1 - p);
  }

  lemma SameShift(k: nat, bytes: nat)
    requires k % 2 == 1 && bytes > 0
    ensures Shift(k, bytes) == Shift(k - 1, bytes)
  {
    var q, r := (k - 1) / 256, (k - 1) % 256;
    assert r % 2 == 0 && r + 1 < 256;
    assert k == q * 256 + (r + 1);
    assert k / 256 == q;
  }

  lemma ZeroMask(p: nat)
    requires p < HALF
    ensures RfcMask(0)[p] == 0
  {
    SmallMask(0);
    assert CodeMask(0)[p] == 0;
  }

  /** The standard xors the even step counts into the high bytes, and the odd ones take them out again. */
  lemma {:induction false} RfcHighBytes(x: byte, p: nat, k: nat)
    requires p < HALF - 1
    ensures Masked(RfcMask, x, p, k) == if k % 2 == 0 then XorByte(x, RfcMask(k)[p]) else x
  {
    if k == 0 {
      ZeroMask(p);
      XorZero(x as nat);
    } else {
      RfcHighBytes(x, p, k - 1);
      hide RfcMask, XorByte;
      if k % 2 == 1 {
        SameHighBytes(k, p);
        XorByteUndoes(x, RfcMask(k)[p]);
      }
    }
  }

  function Pow256(n: nat): (p: nat)
    ensures p > 0
  {
    if n == 0 then 1 else 256 * Pow256(n - 1)
  }

  lemma {:induction false} SomeByte(v: nat, bytes: nat) returns (j: nat)
    requires 0 < v < Pow256(bytes)
    ensures j < bytes && Shift(v, j) % 256 != 0
  {
    if v % 256 != 0 {
      j := 0;
    } else {
      var i := SomeByte(v / 256, bytes - 1);
      j := i + 1;
    }
  }

  /** A key of n words is wrapped as the standard says, under every cipher, exactly when the 6n step counts fit a byte.
      (A Go slice has fewer than 2^63 bytes, so 6n stays below 2^64.) */
  lemma WrapIsStandardExactly(n: nat)
    requires 6 * n < Pow256(HALF)
    ensures (forall c: Cipher, key: seq<byte> :: |key| == n * HALF ==> Wrap(c, CodeMask, key) == Wrap(c, RfcMask, key))
            <==> 6 * n <= 255
  {
    if 6 * n <= 255 {
      forall c: Cipher, key: seq<byte> | |key| == n * HALF
        ensures Wrap(c, CodeMask, key) == Wrap(c, RfcMask, key)
      {
        WrapIsStandard(c, n, key);
      }
    } else {
      var key: seq<byte> := seq(n * HALF, i => 0);
      WrapDiffers(n, key);
    }
  }

  lemma WrapIsStandard(c: Cipher, n: nat, key: seq<byte>)
    requires 6 * n <= 255 && |key| == n * HALF
    ensures Wrap(c, CodeMask, key) == Wrap(c, RfcMask, key)
  {
    hide WrapStep, UnwrapStep, WrapRound, CodeMask, RfcMask;
    AllSteps(n);
    SmallRounds(c, n, Registers(KEYWRAP_IV, key), 0, ROUNDS);
  }

  /** With more than 255 steps, the identity tells the code from the standard. */
  lemma WrapDiffers(n: nat, key: seq<byte>)
    requires 255 < 6 * n < Pow256(HALF) && |key| == n * HALF
    ensures Wrap(IDENTITY, CodeMask, key) != Wrap(IDENTITY, RfcMask, key)
  {
    hide WrapStep, UnwrapStep, WrapRound, CodeMask, RfcMask;
    var s, k := Registers(KEYWRAP_IV, key), 6 * n;
    var p := HighByte(k);
    HighByteDiffers(s.a[p], p, k);
    AllSteps(n);
    IdentityRounds(CodeMask, n, s, 0, ROUNDS, s.a[p], p);
    IdentityRounds(RfcMask, n, s, 0, ROUNDS, s.a[p], p);
    FirstBytesDiffer(WrapRounds(IDENTITY, CodeMask, n, s, 0, ROUNDS), WrapRounds(IDENTITY, RfcMask, n, s, 0, ROUNDS), p);
  }

  lemma HighByteDiffers(x: byte, p: nat, k: nat)
    requires p < HALF - 1 && k % 2 == 0 && RfcMask(k)[p] != 0
    ensures Masked(CodeMask, x, p, k) != Masked(RfcMask, x, p, k)
  {
    CodeKeepsHighBytes(x, p, k);
    RfcHighBytes(x, p, k);
    if XorByte(x, RfcMask(k)[p]) == x {
      XorChanges(x as nat, RfcMask(k)[p] as nat);
    }
  }

  lemma FirstBytesDiffer(s: Registers, q: Registers, p: nat)
    requires p < HALF && s.a[p] != q.a[p]
    ensures s.a + s.r != q.a + q.r
  {
    assert (s.a + s.r)[p] == s.a[p] && (q.a + q.r)[p] == q.a[p];
  }

  /** A count above 255 has a high byte that is not zero. */
  lemma HighByte(k: nat) returns (p: nat)
    requires 255 < k < Pow256(HALF)
    ensures p < HALF - 1 && RfcMask(k)[p] != 0
  {
    var j := SomeByte(k / 256, HALF - 1);
    p := HALF - 2 - j;
    assert Shift(k, j + 1) == Shift(k / 256, j);
  }

  // ----- the Go code -----

  /** KeyWrap over its two arrays; `cipher` is None when the key encryption key does not fit AES, which the Go code
      notices only when it first uses the nil cipher: the answer is then None, a panic. */
  method KeyWrap(cipher: Option<Cipher>, key: seq<byte>) returns (wrapped: Option<seq<byte>>)
    ensures wrapped.None? <==> cipher.None? && |key| >= HALF
    ensures cipher.Some? ==> wrapped == Some(Wrap(cipher.value, CodeMask, key))
    ensures cipher.None? && |key| < HALF ==> wrapped == Some(KEYWRAP_IV + key)
  {
    hide WrapStep, WrapRound, CodeMask;
    var n := |key| / HALF;
    var r := new byte[HALF + |key|](i => if HALF <= i < HALF + |key| then key[i - HALF] else 0);
    var a := new byte[HALF](i requires 0 <= i < HALF => KEYWRAP_IV[i]);
    assert a[..] == KEYWRAP_IV && r[HALF..] == key;
    ghost var start := Registers(KEYWRAP_IV, key);
    if cipher.None? && n > 0 {
      return None;
    }
    if cipher.Some? {
      var base := 0;
      for j := 0 to ROUNDS
        invariant base == n * j
        invariant |r[HALF..]| == |key|
        invariant WrapRounds(cipher.value, CodeMask, n, Registers(a[..], r[HALF..]), base, ROUNDS - j)
                  == WrapRounds(cipher.value, CodeMask, n, start, 0, ROUNDS)
      {
        RoundInPlace(cipher.value, a, r, n, base);
        base := base + n;
      }
    }
    wrapped := Some(a[..] + r[HALF..]);
  }

  /** The inner loop: one round over the registers 1..n, with t = base + i. */
  method RoundInPlace(c: Cipher, a: array<byte>, r: array<byte>, n: nat, base: nat)
    requires a != r && a.Length == HALF && r.Length >= HALF + n * HALF
    modifies a, r
    ensures Registers(a[..], r[HALF..]) == WrapRound(c, CodeMask, Registers(old(a[..]), old(r[HALF..])), base, n)
  {
    hide WrapStep;
    ghost var start := Registers(a[..], r[HALF..]);
    for i := 1 to n + 1
      invariant Registers(a[..], r[HALF..]) == WrapRound(c, CodeMask, start, base, i - 1)
    {
      WrapOne(c, a, r, i, base + i);
    }
  }

  /** One turn of the inner loop. */
  method WrapOne(c: Cipher, a: array<byte>, r: array<byte>, i: nat, t: nat)
    requires a != r && a.Length == HALF && 1 <= i && (i + 1) * HALF <= r.Length
    modifies a, r
    ensures Registers(a[..], r[HALF..]) == WrapStep(c, Registers(old(a[..]), old(r[HALF..])), i - 1, CodeMask(t))
  {
    hide XorByte, XorBytes, CodeMask;
    ghost var before := r[HALF..];
    var word := r[i * HALF..(i + 1) * HALF];
    assert forall k :: 0 <= k < HALF ==> word[k] == before[(i - 1) * HALF + k];
    assert word == before[(i - 1) * HALF..(i - 1 + 1) * HALF];
    var out := c.E(a[..] + word);
    forall k | 0 <= k < HALF {
      a[k] := out[k];
    }
    a[HALF - 1] := XorByte(a[HALF - 1], (t % 256) as byte);
    MaskedLast(out[..HALF], a[..], t);
    forall k | 0 <= k < HALF {
      r[i * HALF + k] := out[HALF + k];
    }
    assert r[HALF..] == before[..(i - 1) * HALF] + out[HALF..] + before[i * HALF..];
  }

  lemma MaskedLast(from: Half, to: Half, t: nat)
    requires forall k :: 0 <= k < HALF - 1 ==> to[k] == from[k]
    requires to[HALF - 1] == XorByte(from[HALF - 1], (t % 256) as byte)
    ensures to == XorBytes(from, CodeMask(t))
  {
    forall k | 0 <= k < HALF ensures to[k] == XorBytes(from, CodeMask(t))[k] {
      XorZero(from[k] as nat);
    }
  }

  // ----- the equations of the standard -----

  /** Step t of section 2.2.1 of RFC 3394, on register i + 1: B = AES(K, A | R[i]), A = MSB(64, B) ^ t, R[i] = LSB(64, B). */
  ghost predicate IsStep(c: Cipher, mask: Mask, n: nat, t: nat, i: nat, before: Registers, after: Registers) {
    && n * HALF <= |before.r| == |after.r| && i < n
    && (i + 1) * HALF <= n * HALF
    && var b := c.E(before.a + before.r[i * 8..(i + 1) * 8]);
    && (forall k :: 0 <= k < 8 ==> after.a[k] == XorByte(b[k], mask(t)[k]))
    && after.r[i * 8..(i + 1) * 8] == b[8..]
    && after.r[..i * 8] == before.r[..i * 8] && after.r[(i + 1) * 8..] == before.r[(i + 1) * 8..]
  }

  lemma WrapStepIsStep(c: Cipher, mask: Mask, n: nat, t: nat, i: nat, s: Registers)
    requires i < n && n * HALF <= |s.r|
    ensures (i + 1) * HALF <= |s.r| && IsStep(c, mask, n, t, i, s, WrapStep(c, s, i, mask(t)))
  {
    assert (i + 1) * HALF <= n * HALF;
    var b := c.E(s.a + s.r[i * HALF..(i + 1) * HALF]);
    var r := s.r[..i * HALF] + b[HALF..] + s.r[(i + 1) * HALF..];
    assert r[i * 8..(i + 1) * 8] == b[8..] && r[..i * 8] == s.r[..i * 8] && r[(i + 1) * 8..] == s.r[(i + 1) * 8..];
  }

  /** State k + 1 follows on state k by the step numbered base + k + 1. */
  ghost predicate StepAt(c: Cipher, mask: Mask, n: nat, base: nat, states: seq<Registers>, k: nat)
    requires k + 1 < |states|
  {
    n > 0 && IsStep(c, mask, n, base + k + 1, k % n, states[k], states[k + 1])
  }

  /** The states of some steps in a row, the first one on register 1. */
  ghost predicate AreSteps(c: Cipher, mask: Mask, n: nat, base: nat, states: seq<Registers>) {
    forall k :: 0 <= k < |states| - 1 ==> StepAt(c, mask, n, base, states, k)
  }

  lemma OneMoreStep(c: Cipher, mask: Mask, n: nat, base: nat, states: seq<Registers>, next: Registers)
    requires states != [] && AreSteps(c, mask, n, base, states) && n > 0
    requires IsStep(c, mask, n, base + |states|, (|states| - 1) % n, states[|states| - 1], next)
    ensures AreSteps(c, mask, n, base, states + [next])
  {
    hide IsStep;
    forall k | 0 <= k < |states| ensures StepAt(c, mask, n, base, states + [next], k) {
      if k < |states| - 1 {
        assert StepAt(c, mask, n, base, states, k);
      }
    }
  }

  lemma OneMoreRound(c: Cipher, mask: Mask, n: nat, base: nat, first: seq<Registers>, rest: seq<Registers>)
    requires |first| == n + 1 && rest != [] && first[n] == rest[0]
    requires AreSteps(c, mask, n, base, first) && AreSteps(c, mask, n, base + n, rest)
    ensures AreSteps(c, mask, n, base, Joined(first, rest, n))
  {
    hide IsStep;
    var states := Joined(first, rest, n);
    forall k | 0 <= k < |states| - 1 ensures StepAt(c, mask, n, base, states, k) {
      if k < n {
        assert StepAt(c, mask, n, base, first, k);
        assert states[k + 1] == first[k + 1];
      } else {
        assert StepAt(c, mask, n, base + n, rest, k - n);
        NextRound(k, n);
      }
    }
  }

  lemma {:induction false} RoundStates(c: Cipher, mask: Mask, n: nat, s: Registers, base: nat, i: nat) returns (states: seq<Registers>)
    requires i <= n && n * HALF <= |s.r|
    ensures |states| == i + 1 && states[0] == s && states[i] == WrapRound(c, mask, s, base, i)
    ensures AreSteps(c, mask, n, base, states)
  {
    if i == 0 {
      states := [s];
    } else {
      hide WrapStep, IsStep, AreSteps;
      var init := RoundStates(c, mask, n, s, base, i - 1);
      WrapStepIsStep(c, mask, n, base + i, i - 1, init[i - 1]);
      states := init + [WrapRound(c, mask, s, base, i)];
      SmallIndex(i - 1, n);
      OneMoreStep(c, mask, n, base, init, WrapRound(c, mask, s, base, i));
    }
  }

  lemma SmallIndex(k: nat, n: nat)
    requires k < n
    ensures k % n == k
  {
  }

  lemma {:induction false} RoundsStates(c: Cipher, mask: Mask, n: nat, s: Registers, base: nat, rounds: nat) returns (states: seq<Registers>)
    requires n * HALF <= |s.r|
    ensures |states| == Steps(n, rounds) + 1 && states[0] == s && states[Steps(n, rounds)] == WrapRounds(c, mask, n, s, base, rounds)
    ensures AreSteps(c, mask, n, base, states)
    decreases rounds
  {
    hide WrapRound, AreSteps, StepAt;
    if rounds == 0 {
      states := [s];
      NoStep(c, mask, n, base, s);
    } else {
      var first := RoundStates(c, mask, n, s, base, n);
      var rest := RoundsStates(c, mask, n, first[n], base + n, rounds - 1);
      states := Joined(first, rest, n);
      OneMoreRound(c, mask, n, base, first, rest);
    }
  }

  lemma NoStep(c: Cipher, mask: Mask, n: nat, base: nat, s: Registers)
    ensures AreSteps(c, mask, n, base, [s])
  {
  }

  /** The states of one round and of those that follow on it. */
  function Joined(first: seq<Registers>, rest: seq<Registers>, n: nat): (states: seq<Registers>)
    requires |first| == n + 1 && rest != [] && first[n] == rest[0]
    ensures |states| == n + |rest| && states[0] == first[0] && states[|states| - 1] == rest[|rest| - 1]
  {
    first[..n] + rest
  }

  lemma NextRound(k: nat, n: nat)
    requires n > 0 && k >= n
    ensures k % n == (k - n) % n
  {
    var q, r := (k - n) / n, (k - n) % n;
    assert (q + 1) * n == q * n + n;
    Padding.ModUnique(k, q + 1, r, n);
  }

  /** The wrapping is a run of 6n steps from the initial value and the key, each step as the standard says but for the mask,
      register by register, and the result is A and the registers in order. */
  lemma WrapMeetsItsEquations(c: Cipher, mask: Mask, n: nat, key: seq<byte>) returns (states: seq<Registers>)
    requires |key| == n * 8
    ensures |states| == 6 * n + 1
    ensures states[0] == Registers([0xa6, 0xa6, 0xa6, 0xa6, 0xa6, 0xa6, 0xa6, 0xa6], key)
    ensures AreSteps(c, mask, n, 0, states)
    ensures Wrap(c, mask, key) == states[6 * n].a + states[6 * n].r
  {
    hide AreSteps, WrapRounds, Steps;
    AllSteps(n);
    states := RoundsStates(c, mask, n, Registers(KEYWRAP_IV, key), 0, ROUNDS);
  }

  /** The number that bytes spell, the most significant first. */
  function Number(b: seq<byte>): (r: nat) {
    if b == [] then 0 else 256 * Number(b[..|b| - 1]) + b[|b| - 1] as nat
  }

  /** The last n bytes of a number. */
  function BytesOf(t: nat, n: nat): (b: seq<byte>)
    ensures |b| == n
  {
    if n == 0 then [] else BytesOf(t / 256, n - 1) + [(t % 256) as byte]
  }

  lemma {:induction false} BytesSpell(t: nat, n: nat)
    requires t < Pow256(n)
    ensures Number(BytesOf(t, n)) == t
    decreases n
  {
    if n > 0 {
      BytesSpell(t / 256, n - 1);
      NumberMore(BytesOf(t / 256, n - 1), (t % 256) as byte);
    }
  }

  lemma NumberMore(b: seq<byte>, last: byte)
    ensures Number(b + [last]) == 256 * Number(b) + last as nat
  {
    assert (b + [last])[..|b|] == b;
  }

  lemma {:induction false} ByteIsShifted(t: nat, n: nat, i: nat)
    requires i < n
    ensures BytesOf(t, n)[i] as int == Shift(t, n - 1 - i) % 256
    decreases n
  {
    if i < n - 1 {
      ByteIsShifted(t / 256, n - 1, i);
    }
  }

  /** The mask of the standard is the step counter as a number of eight bytes, the most significant first; that of the code has
      its lowest byte only. */
  lemma MaskSpellsTheCounter(t: nat)
    requires t < Pow256(HALF)
    ensures Number(RfcMask(t)) == t && CodeMask(t) == [0, 0, 0, 0, 0, 0, 0, (t % 256) as byte]
  {
    forall i | 0 <= i < HALF ensures RfcMask(t)[i] == BytesOf(t, HALF)[i] {
      ByteIsShifted(t, HALF, i);
      hide Shift, BytesOf;
    }
    assert RfcMask(t) == BytesOf(t, HALF);
    BytesSpell(t, HALF);
    hide BytesOf, Number, Shift, Pow256;
  }
}
