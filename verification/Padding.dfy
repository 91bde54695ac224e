/** crypto/pad.go: a reader that appends padding to whatever another reader delivers. */
module Padding {
  import opened Bytes
  import opened Streams

  /** The number of pad bytes: at least one, at most a whole block. */
  function PadLength(dataLength: nat, size: nat): (k: nat)
    requires size > 0
    ensures 1 <= k <= size && (dataLength + k) % size == 0
  {
    var r := dataLength % size;
    assert dataLength == dataLength / size * size + r;
    assert (dataLength / size + 1) * size == dataLength + (size - r);
    MultipleMod(dataLength / size + 1, size);
    size - r
  }

  lemma MultipleMod(q: nat, size: nat)
    requires size > 0
    ensures (q * size) % size == 0
  {
    if q > 0 {
      MultipleMod(q - 1, size);
      assert q * size == (q - 1) * size + size;
      AddMod((q - 1) * size, size);
    }
  }

  lemma AddMod(a: nat, size: nat)
    requires size > 0
    ensures (a + size) % size == a % size
  {
    var q, r := a / size, a % size;
    assert (q + 1) * size == q * size + size;
    ModUnique(a + size, q + 1, r, size);
  }

  lemma AtLeastOnce(k: int, m: int)
    requires k >= 1 && m > 0
    ensures k * m >= m
  {
  }

  lemma SameRemainder(q: int, r: int, q': int, r': int, m: int)
    requires m > 0 && q * m + r == q' * m + r' && 0 <= r < m && 0 <= r' < m
    ensures r == r'
  {
    if q > q' {
      AtLeastOnce(q - q', m);
    } else if q < q' {
      AtLeastOnce(q' - q, m);
    }
  }

  lemma ModUnique(x: int, q: int, r: int, m: int)
    requires m > 0 && x == q * m + r && 0 <= r < m
    ensures x % m == r
  {
    SameRemainder(x / m, x % m, q, r, m);
  }

  lemma ModOfSum(a: nat, b: nat, m: nat)
    requires m > 0
    ensures (a % m + b) % m == (a + b) % m
  {
    var p, q, r := a / m, (a % m + b) / m, (a % m + b) % m;
    assert (p + q) * m == p * m + q * m;
    ModUnique(a + b, p + q, r, m);
  }

  /** The first bytes of a padding of k bytes. With `all` every byte is k (section 6.3 of RFC 5652); otherwise the
      last one is, and the others are arbitrary between 1 and 254 (section 5.2 of XML Encryption). */
  predicate PadPrefix(pads: seq<byte>, k: nat, all: bool) {
    && |pads| <= k <= 255
    && forall i :: 0 <= i < |pads| ==>
                     if all || i == k - 1 then pads[i] as int == k else 1 <= pads[i] as int <= 254
  }

  predicate IsPadding(pads: seq<byte>, k: nat, all: bool) { |pads| == k && PadPrefix(pads, k, all) }

  class PaddedReader {
    const inner: Source
    const size: nat
    const insertPadLengthAll: bool
    var count: nat
    var left: nat
    var done: bool

    /** Everything the inner reader delivers, and everything read from this one so far. */
    ghost const data: seq<byte>
    ghost var delivered: seq<byte>

    constructor (inner: Source, size: nat, insertPadLengthAll: bool)
      requires inner.Valid() && 1 <= size <= 255
      ensures Valid() && this.inner == inner && this.size == size && this.insertPadLengthAll == insertPadLengthAll
      ensures data == inner.Rest() && delivered == [] && !done
    {
      this.inner, this.size, this.insertPadLengthAll := inner, size, insertPadLengthAll;
      count, left, done := 0, 0, false;
      data, delivered := inner.Rest(), [];
    }

    ghost predicate Valid()
      reads this, inner
    {
      && inner.Valid()
      && 1 <= size <= 255
      && (!done ==> data == delivered + inner.Rest() && left == 0)
      && (!done && inner.ending == EOF ==> count == |delivered| % size)
      && (done ==>
            && inner.ending == EOF
            && count == PadLength(|data|, size)
            && left <= count
            && |delivered| == |data| + count - left
            && delivered[..|data|] == data
            && PadPrefix(delivered[|data|..], count, insertPadLengthAll))
    }

    /** The bytes still to be read, when the inner reader ends with EOF. */
    ghost function Remaining(): (r: nat)
      reads this, inner
      requires Valid()
    {
      |data| + PadLength(|data|, size) - |delivered|
    }

    /** Reads from the inner reader until buf[off..] is full or the inner reader reports an error. */
    method Refill(buf: array<byte>, off: nat) returns (n: nat, err: Err, ghost got: seq<byte>)
      requires Valid() && !done && off <= buf.Length
      modifies this, inner, buf
      ensures Valid() && !done && off + n <= buf.Length
      ensures buf[..off + n] == old(buf[..off]) + got
      ensures delivered == old(delivered) + got
      ensures err == Nil ==> off + n == buf.Length
      ensures err == Nil || err == inner.ending
      ensures err != Nil ==> inner.Rest() == []
    {
      n, err, got := ReadOnce(buf, off);
      while off + n < buf.Length && err == Nil
        invariant off + n <= buf.Length && Valid() && !done
        invariant buf[..off + n] == old(buf[..off]) + got
        invariant delivered == old(delivered) + got
        invariant err == Nil || err == inner.ending
        invariant err != Nil ==> inner.Rest() == []
        decreases if err == Nil then 1 else 0, inner.Weight()
      {
        var nn: nat;
        ghost var more;
        nn, err, more := ReadOnce(buf, off + n);
        n, got := n + nn, got + more;
      }
    }

    /** One call of the inner reader; the counter follows the bytes modulo the block size. */
    method ReadOnce(buf: array<byte>, off: nat) returns (n: nat, err: Err, ghost got: seq<byte>)
      requires Valid() && !done && off <= buf.Length
      modifies this, inner, buf
      ensures Valid() && !done && off + n <= buf.Length
      ensures buf[..off + n] == old(buf[..off]) + got
      ensures delivered == old(delivered) + got
      ensures err == Nil || err == inner.ending
      ensures err != Nil ==> inner.Rest() == []
      ensures err == Nil && off < buf.Length ==> inner.Weight() < old(inner.Weight())
    {
      n, err, got := inner.Read(buf, off);
      ModOfSum(|delivered|, n, size);
      count := (n + count) % size;
      delivered := delivered + got;
    }

    /** Reads into buf[off..], a slice whose capacity is its length. */
    method Read(buf: array<byte>, off: nat) returns (n: nat, err: Err, ghost got: seq<byte>)
      requires Valid() && off <= buf.Length
      modifies this, inner, buf
      ensures Valid() && off + n <= buf.Length
      ensures buf[..off + n] == old(buf[..off]) + got
      ensures delivered == old(delivered) + got
      ensures err == Nil || err == inner.ending
      ensures err == Nil ==> off + n == buf.Length
      ensures inner.ending == EOF ==> n == Min(buf.Length - off, old(Remaining())) && (err == EOF <==> Remaining() == 0)
      ensures err == Failure ==> delivered == data
    {
      if !done {
        n, err, got := Refill(buf, off);
        if err == EOF {
          Finish();
          var added: nat;
          ghost var more;
          added, err, more := Pad(buf, off + n);
          n, got := n + added, got + more;
        }
        return;
      }
      n, err, got := Pad(buf, off);
    }

    /** The inner reader is exhausted: the padding begins. */
    method Finish()
      requires Valid() && !done && inner.ending == EOF && inner.Rest() == []
      modifies this
      ensures Valid() && done && delivered == old(delivered) && left == PadLength(|data|, size)
    {
      done := true;
      left := size - count;
      count := left;
      assert delivered == data;
      assert delivered[|data|..] == [];
    }

    /** Writes pad bytes into buf[off..] until it is full or the padding is complete. */
    method Pad(buf: array<byte>, off: nat) returns (i: nat, err: Err, ghost got: seq<byte>)
      requires Valid() && done && off <= buf.Length
      modifies this, buf
      ensures Valid() && done && off + i <= buf.Length
      ensures buf[..off + i] == old(buf[..off]) + got
      ensures delivered == old(delivered) + got
      ensures i == Min(buf.Length - off, old(left)) && left == old(left) - i
      ensures err == if left == 0 then EOF else Nil
    {
      i, got := 0, [];
      while off + i < buf.Length && left > 0
        invariant off + i <= buf.Length && done && i + left == old(left)
        invariant buf[..off + i] == old(buf[..off]) + got
        invariant delivered == old(delivered) + got
        invariant Valid()
      {
        var b: byte;
        if insertPadLengthAll || left == 1 {
          b := count as byte;
        } else {
          b :| 1 <= b as int <= 254;   // src.Intn(254) + 1
        }
        buf[off + i] := b;
        i, got := i + 1, got + [b];
        Grow(b);
        left := left - 1;
      }
      err := if left == 0 then EOF else Nil;
    }

    /** One more pad byte has been handed out. */
    ghost method Grow(b: byte)
      requires Valid() && done && left > 0
      requires if insertPadLengthAll || left == 1 then b as int == count else 1 <= b as int <= 254
      modifies this`delivered
      ensures delivered == old(delivered) + [b] && delivered[..|data|] == data
      ensures PadPrefix(delivered[|data|..], count, insertPadLengthAll)
    {
      ghost var pads := delivered[|data|..];
      delivered := delivered + [b];
      assert delivered[|data|..] == pads + [b];
    }
  }

  /** io.ReadFull: the whole buffer, or the error that came before it was full. */
  method ReadFull(r: PaddedReader, buf: array<byte>) returns (n: nat, err: Err)
    requires r.Valid() && buf.Length > 0
    modifies r, r.inner, buf
    ensures r.Valid() && n <= buf.Length
    ensures r.delivered == old(r.delivered) + buf[..n]
    ensures err == Nil <==> n == buf.Length
    ensures r.inner.ending == EOF ==> n == Min(buf.Length, old(r.Remaining()))
    ensures r.inner.ending == EOF && err != Nil ==> err == if n == 0 then EOF else UnexpectedEOF
    ensures r.inner.ending == Failure && err != Nil ==> err == Failure && r.delivered == r.data
  {
    n, err := 0, Nil;
    while n < buf.Length && err == Nil
      invariant n <= buf.Length && r.Valid()
      invariant r.delivered == old(r.delivered) + buf[..n]
      invariant err == Nil ==> n == 0 || n == buf.Length
      invariant n == 0 && err == Nil ==> r.delivered == old(r.delivered)
      invariant err == Nil || err == r.inner.ending
      invariant r.inner.ending == EOF && (n > 0 || err != Nil) ==> n == Min(buf.Length, old(r.Remaining()))
      invariant err == Failure ==> r.delivered == r.data
      decreases buf.Length - n, if err == Nil then 1 else 0
    {
      var nn: nat;
      ghost var got;
      nn, err, got := r.Read(buf, n);
      n := n + nn;
    }
    if n >= buf.Length {
      err := Nil;
    } else if n > 0 && err == EOF {
      err := UnexpectedEOF;
    }
  }

  /** What padding means: with the length in every byte, k bytes k; otherwise k bytes of which the last is k and the others lie
      between 1 and 254. */
  lemma PaddingMeans(pads: seq<byte>, k: nat)
    requires 1 <= k <= 255
    ensures IsPadding(pads, k, true) <==> |pads| == k && forall i :: 0 <= i < k ==> pads[i] as int == k
    ensures IsPadding(pads, k, false) <==>
            |pads| == k && pads[k - 1] as int == k && forall i :: 0 <= i < k - 1 ==> 1 <= pads[i] as int <= 254
  {
  }

  /** The padding fills the last block: its length is between 1 and the size, and the only one that does. */
  lemma PaddingFills(n: nat, size: nat, k: nat)
    requires 1 <= size <= 255
    ensures k == PadLength(n, size) <==> 1 <= k <= size && (n + k) % size == 0
  {
    var p := PadLength(n, size);
    if 1 <= k <= size && (n + k) % size == 0 {
      var a, b := (n + k) / size, (n + p) / size;
      assert n + k == a * size && n + p == b * size;
      if a > b {
        AtLeastOnce(a - b, size);
      } else if b > a {
        AtLeastOnce(b - a, size);
      }
    }
  }
}
