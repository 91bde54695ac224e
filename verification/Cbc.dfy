/** crypto/aes_cbc.go: streaming CBC encryption over a padded reader, and decryption of a whole buffer. */
module Cbc {
  import opened Options
  import opened Bytes
  import opened Streams
  import opened Padding

  /** The identifier of the algorithm in manifests and packages. */
  const SIGNATURE := "http://www.w3.org/2001/04/xmlenc#aes256-cbc"

  // ----- CBC, section 6.2 of NIST SP 800-38A -----

  predicate Whole(s: seq<byte>) { |s| % BLOCK == 0 }

  /** The j-th block. */
  function Nth(s: seq<byte>, j: nat): (r: Block)
    requires (j + 1) * BLOCK <= |s|
  {
    s[j * BLOCK..(j + 1) * BLOCK]
  }

  function CbcEncrypt(c: Cipher, iv: Block, p: seq<byte>): (x: seq<byte>)
    requires Whole(p)
    ensures |x| == |p|
    decreases |p|
  {
    if p == [] then []
    else
      var x: Block := c.E(XorBytes(p[..BLOCK], iv));
      x + CbcEncrypt(c, x, p[BLOCK..])
  }

  function CbcDecrypt(c: Cipher, iv: Block, x: seq<byte>): (p: seq<byte>)
    requires Whole(x)
    ensures |p| == |x|
    decreases |x|
  {
    if x == [] then []
    else
      var p: Block := XorBytes(c.D(x[..BLOCK]), iv);
      p + CbcDecrypt(c, x[..BLOCK], x[BLOCK..])
  }

  lemma {:induction false} CbcRoundTrip(c: Cipher, iv: Block, p: seq<byte>)
    requires Whole(p)
    ensures CbcDecrypt(c, iv, CbcEncrypt(c, iv, p)) == p
    decreases |p|
  {
    if p != [] {
      var first: Block := p[..BLOCK];
      var x: Block := c.E(XorBytes(first, iv));
      var rest := CbcEncrypt(c, x, p[BLOCK..]);
      assert (x + rest)[..BLOCK] == x && (x + rest)[BLOCK..] == rest;
      XorBytesUndoes(first, iv);
      assert c.D(x) == XorBytes(first, iv);
      CbcRoundTrip(c, x, p[BLOCK..]);
      assert p == first + p[BLOCK..];
    }
  }

  lemma NthAfter(s: seq<byte>, j: nat)
    requires j > 0 && (j + 1) * BLOCK <= |s|
    ensures Nth(s, j) == Nth(s[BLOCK..], j - 1)
  {
    assert s[BLOCK..][(j - 1) * BLOCK..j * BLOCK] == s[j * BLOCK..(j + 1) * BLOCK];
  }

  /** The equations of the standard: C_j = E(P_j xor C_(j-1)), with the IV as C_(-1). */
  lemma {:induction false} CbcEquations(c: Cipher, iv: Block, p: seq<byte>, j: nat)
    requires Whole(p) && (j + 1) * BLOCK <= |p|
    ensures
      var x := CbcEncrypt(c, iv, p);
      Nth(x, j) == c.E(XorBytes(Nth(p, j), if j == 0 then iv else Nth(x, j - 1)))
    decreases j
  {
    hide XorBytes;
    var first: Block := p[..BLOCK];
    var x: Block := c.E(XorBytes(first, iv));
    var rest := CbcEncrypt(c, x, p[BLOCK..]);
    if j > 0 {
      CbcEquations(c, x, p[BLOCK..], j - 1);
      Cut(x, rest);
      NthAfter(x + rest, j);
      NthAfter(p, j);
      if j > 1 {
        NthAfter(x + rest, j - 1);
      } else {
        assert Nth(x + rest, 0) == x;
      }
    } else {
      assert Nth(x + rest, 0) == x;
    }
  }

  /** The block the next one is chained to. */
  function Chain(iv: Block, x: seq<byte>): (r: Block)
    requires Whole(x)
  {
    if x == [] then iv else x[|x| - BLOCK..]
  }

  /** Encrypting one more block extends the whole-message encryption. */
  lemma {:induction false} CbcAppend(c: Cipher, iv: Block, p: seq<byte>, b: Block)
    requires Whole(p)
    ensures CbcEncrypt(c, iv, p + b) == CbcEncrypt(c, iv, p) + c.E(XorBytes(b, Chain(iv, CbcEncrypt(c, iv, p))))
    decreases |p|
  {
    hide XorBytes;
    if p == [] {
      assert p + b == b;
      assert b[..BLOCK] == b && b[BLOCK..] == [];
    } else {
      var x: Block := c.E(XorBytes(p[..BLOCK], iv));
      var rest := CbcEncrypt(c, x, p[BLOCK..]);
      assert (p + b)[..BLOCK] == p[..BLOCK] && (p + b)[BLOCK..] == p[BLOCK..] + b;
      CbcAppend(c, x, p[BLOCK..], b);
      assert Chain(iv, x + rest) == Chain(x, rest);
    }
  }

  // ----- what a stream looks like, encrypted and decrypted -----

  /** `out` is an encryption of `plain`: some IV, then CBC over the data and some padding in the W3C scheme. */
  ghost predicate Encrypted(c: Cipher, plain: seq<byte>, out: seq<byte>) {
    exists iv: Block, pads: seq<byte> :: EncryptedWith(c, iv, pads, plain, out)
  }

  ghost predicate EncryptedWith(c: Cipher, iv: Block, pads: seq<byte>, plain: seq<byte>, out: seq<byte>) {
    && IsPadding(pads, PadLength(|plain|, BLOCK), false)
    && Whole(plain + pads)
    && out == iv + CbcEncrypt(c, iv, plain + pads)
  }

  /** What decryption of a buffer writes; None where the Go code panics: fewer bytes than one block, a partial
      block, or a pad length that reaches into the IV. */
  function Decrypted(c: Cipher, b: seq<byte>): (r: Option<seq<byte>>) {
    if |b| < BLOCK || !Whole(b) then None
    else
      var whole := b[..BLOCK] + CbcDecrypt(c, b[..BLOCK], b[BLOCK..]);
      var padding := whole[|whole| - 1] as int;
      if |whole| - padding < BLOCK then None else Some(whole[BLOCK..|whole| - padding])
  }

  lemma DecryptedIsShorter(c: Cipher, b: seq<byte>)
    ensures Decrypted(c, b).Some? ==> |Decrypted(c, b).value| < |b|
  {
  }

  lemma DecryptUndoesOne(c: Cipher, iv: Block, pads: seq<byte>, plain: seq<byte>, out: seq<byte>)
    requires EncryptedWith(c, iv, pads, plain, out)
    ensures Decrypted(c, out) == Some(plain)
  {
    hide CbcEncrypt, CbcDecrypt;
    Cut(iv, CbcEncrypt(c, iv, plain + pads));
    CbcRoundTrip(c, iv, plain + pads);
    Unpad(iv, plain, pads);
  }

  lemma Unpad(iv: Block, plain: seq<byte>, pads: seq<byte>)
    ensures
      var whole := iv + (plain + pads);
      && |whole| == BLOCK + |plain| + |pads| && whole[BLOCK..|whole| - |pads|] == plain
      && (pads != [] ==> whole[|whole| - 1] == pads[|pads| - 1])
  {
  }

  /** Decryption undoes encryption, whatever the IV and the random pad bytes. */
  lemma DecryptUndoesEncrypt(c: Cipher, plain: seq<byte>, out: seq<byte>)
    requires Encrypted(c, plain, out)
    ensures Decrypted(c, out) == Some(plain)
  {
    var iv: Block, pads: seq<byte> :| EncryptedWith(c, iv, pads, plain, out);
    DecryptUndoesOne(c, iv, pads, plain, out);
  }

  /** The ciphertext is an IV and at least one whole block longer than nothing. */
  lemma EncryptedSize(c: Cipher, plain: seq<byte>, out: seq<byte>)
    requires Encrypted(c, plain, out)
    ensures |out| == BLOCK + |plain| + PadLength(|plain|, BLOCK) && Whole(out)
  {
  }

  // ----- the Go code -----

  /** cipher.NewCBCEncrypter: encrypts blocks in place, chaining. */
  class CbcEncrypter {
    const cipher: Cipher
    var chain: Block

    constructor (cipher: Cipher, iv: Block)
      ensures this.cipher == cipher && chain == iv
    {
      this.cipher, chain := cipher, iv;
    }

    method CryptBlock(buf: array<byte>)
      requires buf.Length == BLOCK
      modifies this, buf
      ensures buf[..] == cipher.E(XorBytes(old(buf[..]), old(chain))) == chain
    {
      var x: Block := cipher.E(XorBytes(buf[..], chain));
      forall i | 0 <= i < BLOCK {
        buf[i] := x[i];
      }
      assert buf[..] == x;
      chain := x;
    }
  }

  /** Fills the buffer with the next block of the padded stream; never with a part of one. */
  method NextBlock(r: PaddedReader, buffer: array<byte>) returns (err: Err)
    requires r.Valid() && r.size == buffer.Length == BLOCK && Whole(r.delivered)
    modifies r, r.inner, buffer
    ensures r.Valid()
    ensures err == Nil ==> r.delivered == old(r.delivered) + buffer[..]
    ensures r.inner.ending == EOF ==> err == if old(r.Remaining()) == 0 then EOF else Nil
    ensures r.inner.ending == EOF && err == EOF ==> r.delivered == old(r.delivered) && r.Remaining() == 0
    ensures r.inner.ending == Failure ==> err == Nil || err == Failure
  {
    var n;
    n, err := ReadFull(r, buffer);
    assert buffer[..buffer.Length] == buffer[..];
  }

  /** The padded stream read to its end is the data and its padding. */
  lemma ReadToTheEnd(r: PaddedReader) returns (pads: seq<byte>)
    requires r.Valid() && r.inner.ending == EOF && r.Remaining() == 0
    ensures r.delivered == r.data + pads && IsPadding(pads, PadLength(|r.data|, r.size), r.insertPadLengthAll)
  {
    pads := r.delivered[|r.data|..];
  }

  /** The stream written so far: the IV and the encryption of the blocks read. */
  ghost predicate Written(c: Cipher, iv: Block, read: seq<byte>, chain: Block, written: seq<byte>) {
    && Whole(read)
    && chain == Chain(iv, CbcEncrypt(c, iv, read))
    && written == iv + CbcEncrypt(c, iv, read)
  }

  lemma WrittenMore(c: Cipher, iv: Block, read: seq<byte>, chain: Block, written: seq<byte>, block: Block)
    requires Written(c, iv, read, chain, written)
    ensures
      var x := c.E(XorBytes(block, chain));
      Written(c, iv, read + block, x, written + x)
  {
    CbcAppend(c, iv, read, block);
    var x := c.E(XorBytes(block, chain));
    assert written + x == iv + (CbcEncrypt(c, iv, read) + x);
    assert CbcEncrypt(c, iv, read + block)[|read|..] == x;
  }

  /** The bytes that an encryption writes. */
  function EncryptedLength(n: nat): (r: nat) { BLOCK + n + PadLength(n, BLOCK) }

  /** The initial vector, the whole blocks, and one more for the rest and the padding. */
  lemma EncryptedLengthIs(n: nat)
    ensures EncryptedLength(n) == (n / 16 + 2) * 16
  {
  }

  /** Encrypts what the reader delivers, block by block. `cipher` is None when the key does not fit AES, `iv` when
      the system cannot produce random bytes. It succeeds exactly when both are there, the reader ends with EOF and
      the writer has room; it never ends on a partial block. */
  method Encrypt(cipher: Option<Cipher>, r: Source, iv: Option<Block>, w: Sink) returns (err: Err)
    requires r.Valid()
    modifies r, w
    ensures err == Nil || err == Failure
    ensures err == Nil <==> cipher.Some? && iv.Some? && r.ending == EOF && old(w.Fits(EncryptedLength(|r.Rest()|)))
    ensures err == Nil ==> exists out, pads ::
              w.out == old(w.out) + out && EncryptedWith(cipher.value, iv.value, pads, old(r.Rest()), out)
  {
    var padded := new PaddedReader(r, BLOCK, false);
    if cipher.None? || iv.None? {
      return Failure;
    }
    var ok := w.Write(iv.value);
    if !ok {
      return Failure;
    }
    var mode := new CbcEncrypter(cipher.value, iv.value);
    var buffer := new byte[BLOCK];
    ghost var sent;
    err, sent := EncryptBlocks(padded, mode, buffer, w, iv.value, old(w.out));
    if err == EOF {
      ghost var pads := ReadToTheEnd(padded);
      assert EncryptedWith(cipher.value, iv.value, pads, old(r.Rest()), sent);
      err := Nil;
    }
  }

  /** Encrypts the block in the buffer and writes it. */
  method EncryptOne(mode: CbcEncrypter, buffer: array<byte>, w: Sink, ghost iv: Block, ghost read: seq<byte>, ghost sent: seq<byte>)
    returns (ok: bool)
    requires buffer.Length == BLOCK && Written(mode.cipher, iv, read, mode.chain, sent)
    modifies mode, buffer, w
    ensures ok == old(w.Fits(BLOCK))
    ensures w.out == if ok then old(w.out) + buffer[..] else old(w.out)
    ensures Written(mode.cipher, iv, read + old(buffer[..]), mode.chain, sent + buffer[..])
  {
    WrittenMore(mode.cipher, iv, read, mode.chain, sent, buffer[..]);
    mode.CryptBlock(buffer);
    ok := w.Write(buffer[..]);
  }

  /** Between two blocks: what was read is encrypted and written, and with err == Nil the buffer holds the next block. */
  ghost predicate Streaming(padded: PaddedReader, mode: CbcEncrypter, buffer: array<byte>, w: Sink,
                            iv: Block, base: seq<byte>, read: seq<byte>, sent: seq<byte>, err: Err)
    reads padded, padded.inner, mode, buffer, w
  {
    && padded.Valid() && padded.size == buffer.Length == BLOCK
    && Written(mode.cipher, iv, read, mode.chain, sent)
    && w.out == base + sent && w.Fits(0)
    && (err == Nil ==> padded.delivered == read + buffer[..])
    && (err != Nil ==> err == padded.inner.ending)
    && (err == EOF ==> padded.delivered == read && padded.Remaining() == 0)
  }

  /** One turn of the loop: encrypt and write the block in the buffer, then fetch the next one. */
  method Turn(padded: PaddedReader, mode: CbcEncrypter, buffer: array<byte>, w: Sink,
              ghost iv: Block, ghost base: seq<byte>, ghost read: seq<byte>, ghost sent: seq<byte>)
    returns (ok: bool, err: Err, ghost read': seq<byte>, ghost sent': seq<byte>)
    requires Streaming(padded, mode, buffer, w, iv, base, read, sent, Nil)
    modifies padded, padded.inner, mode, buffer, w
    ensures ok == old(w.Fits(BLOCK))
    ensures padded.Valid()
    ensures ok ==> Streaming(padded, mode, buffer, w, iv, base, read', sent', err) && |read'| == |read| + BLOCK
  {
    hide Written, CbcEncrypt, XorBytes;
    err := Nil;
    read', sent' := read + buffer[..], sent;
    ok := EncryptOne(mode, buffer, w, iv, read, sent);
    if ok {
      sent' := sent + buffer[..];
      err := NextBlock(padded, buffer);
    }
  }

  /** The loop of Encrypt: one block after the other until the padded reader ends. */
  method EncryptBlocks(padded: PaddedReader, mode: CbcEncrypter, buffer: array<byte>, w: Sink, ghost iv: Block, ghost base: seq<byte>)
    returns (err: Err, ghost sent: seq<byte>)
    requires padded.Valid() && padded.size == buffer.Length == BLOCK && padded.delivered == []
    requires mode.chain == iv && w.out == base + iv && w.Fits(0)
    modifies padded, padded.inner, mode, buffer, w
    ensures padded.Valid()
    ensures err == EOF || err == Failure
    ensures err == EOF ==> padded.inner.ending == EOF && padded.Remaining() == 0
    ensures err == EOF ==> Written(mode.cipher, iv, padded.delivered, mode.chain, sent)
    ensures err == EOF ==> w.out == base + sent
    ensures err == EOF <==> padded.inner.ending == EOF && old(w.Fits(padded.Remaining()))
  {
    sent := iv;
    ghost var read, total := [], padded.Remaining();
    err := NextBlock(padded, buffer);
    while err == Nil
      invariant Streaming(padded, mode, buffer, w, iv, base, read, sent, err)
      decreases total + 2 * BLOCK - |read|, if err == Nil then 1 else 0
    {
      var ok;
      ok, err, read, sent := Turn(padded, mode, buffer, w, iv, base, read, sent);
      if !ok {
        return Failure, sent;
      }
    }
  }

  datatype DecryptResult = Ok | BadKey | Panic

  /** The bytes from j + BLOCK on are decrypted, those before are still ciphertext. */
  ghost predicate DecryptedFrom(c: Cipher, input: seq<byte>, now: seq<byte>, j: nat) {
    && j + BLOCK <= |input| && Whole(input[j..]) && Whole(input[j + BLOCK..])
    && now == input[..j + BLOCK] + CbcDecrypt(c, input[j..j + BLOCK], input[j + BLOCK..])
  }

  predicate Aligned(j: int) { j % BLOCK == 0 }

  lemma AlignedBlocks(j: nat)
    requires Aligned(j) && j > 0
    ensures 0 <= j - BLOCK < j && Aligned(j - BLOCK)
  {
  }

  lemma NothingDecrypted(c: Cipher, input: seq<byte>, j: nat)
    requires |input| == j + BLOCK && Whole(input)
    ensures DecryptedFrom(c, input, input, j) && Aligned(j)
  {
    assert input == input[..j + BLOCK] + [];
  }

  /** Decrypts the buffer in place, each block against the ciphertext before it, from the last block to the first. */
  method CryptBlocks(c: Cipher, buf: array<byte>)
    requires buf.Length >= BLOCK && Whole(buf[..])
    modifies buf
    ensures DecryptedFrom(c, old(buf[..]), buf[..], 0)
  {
    hide *;
    ghost var input := buf[..];
    var j := buf.Length - BLOCK;
    NothingDecrypted(c, input, j);
    while j > 0
      invariant 0 <= j && Aligned(j)
      invariant DecryptedFrom(c, input, buf[..], j)
    {
      AlignedBlocks(j);
      DecryptOne(c, buf, input, j);
      j := j - BLOCK;
    }
  }

  lemma DecryptStep(c: Cipher, input: seq<byte>, j: nat)
    requires BLOCK <= j <= |input| - BLOCK && Whole(input[j..]) && Whole(input[j + BLOCK..])
    ensures CbcDecrypt(c, input[j - BLOCK..j], input[j..]) ==
            XorBytes(c.D(input[j..j + BLOCK]), input[j - BLOCK..j]) + CbcDecrypt(c, input[j..j + BLOCK], input[j + BLOCK..])
  {
    assert input[j..][..BLOCK] == input[j..j + BLOCK] && input[j..][BLOCK..] == input[j + BLOCK..];
  }

  method SetBlock(buf: array<byte>, j: nat, p: Block)
    requires j + BLOCK <= buf.Length
    modifies buf
    ensures buf[..] == old(buf[..j]) + p + old(buf[j + BLOCK..])
  {
    forall i | 0 <= i < BLOCK {
      buf[j + i] := p[i];
    }
    assert buf[j..j + BLOCK] == p;
  }

  /** What the buffer holds around the block that is next. */
  lemma DecryptedParts(c: Cipher, input: seq<byte>, now: seq<byte>, j: nat)
    requires BLOCK <= j && DecryptedFrom(c, input, now, j)
    ensures |now| == |input| && j + BLOCK <= |input|
    ensures now[..j] == input[..j] && now[j - BLOCK..j] == input[j - BLOCK..j] && now[j..j + BLOCK] == input[j..j + BLOCK]
    ensures now[j + BLOCK..] == CbcDecrypt(c, input[j..j + BLOCK], input[j + BLOCK..])
  {
    hide CbcDecrypt;
    Cut(input[..j + BLOCK], CbcDecrypt(c, input[j..j + BLOCK], input[j + BLOCK..]));
    assert now[..j] == now[..j + BLOCK][..j] && now[j..j + BLOCK] == now[..j + BLOCK][j..];
    assert now[j - BLOCK..j] == now[..j + BLOCK][j - BLOCK..j];
  }

  lemma DecryptedOneMore(c: Cipher, input: seq<byte>, now: seq<byte>, j: nat, later: seq<byte>)
    requires BLOCK <= j && DecryptedFrom(c, input, now, j)
    requires later == input[..j] + XorBytes(c.D(input[j..j + BLOCK]), input[j - BLOCK..j]) + CbcDecrypt(c, input[j..j + BLOCK], input[j + BLOCK..])
    ensures DecryptedFrom(c, input, later, j - BLOCK)
  {
    DecryptStep(c, input, j);
    hide CbcDecrypt, XorBytes;
    var p, tail := XorBytes(c.D(input[j..j + BLOCK]), input[j - BLOCK..j]), CbcDecrypt(c, input[j..j + BLOCK], input[j + BLOCK..]);
    assert input[..j] + p + tail == input[..j] + (p + tail);
  }

  method DecryptOne(c: Cipher, buf: array<byte>, ghost input: seq<byte>, j: nat)
    requires |input| == buf.Length && BLOCK <= j && DecryptedFrom(c, input, buf[..], j)
    modifies buf
    ensures DecryptedFrom(c, input, buf[..], j - BLOCK)
  {
    hide CbcDecrypt, XorBytes, DecryptedFrom;
    ghost var now := buf[..];
    DecryptedParts(c, input, now, j);
    assert buf[..j] == now[..j] && buf[j..j + BLOCK] == now[j..j + BLOCK] && buf[j - BLOCK..j] == now[j - BLOCK..j];
    assert buf[j + BLOCK..] == now[j + BLOCK..];
    SetBlock(buf, j, XorBytes(c.D(buf[j..j + BLOCK]), buf[j - BLOCK..j]));
    DecryptedOneMore(c, input, now, j, buf[..]);
  }

  /** Decrypts everything the reader delivered; `cipher` is None when the key does not fit AES. The Go code panics
      exactly where `Decrypted` is None, and does not look at what the writer answers. */
  method Decrypt(cipher: Option<Cipher>, input: seq<byte>, w: Sink) returns (r: DecryptResult)
    modifies w
    ensures cipher.None? ==> r == BadKey && w.out == old(w.out)
    ensures cipher.Some? && Decrypted(cipher.value, input).None? ==> r == Panic && w.out == old(w.out)
    ensures cipher.Some? && Decrypted(cipher.value, input).Some? ==>
              var plain := Decrypted(cipher.value, input).value;
              r == Ok && w.out == if old(w.Fits(|plain|)) then old(w.out) + plain else old(w.out)
  {
    if cipher.None? {
      return BadKey;
    }
    var buf := new byte[|input|](i requires 0 <= i < |input| => input[i]);
    assert buf[..] == input;
    if |input| < BLOCK || |input| % BLOCK != 0 {
      return Panic;
    }
    CryptBlocks(cipher.value, buf);
    ghost var whole := input[..BLOCK] + CbcDecrypt(cipher.value, input[..BLOCK], input[BLOCK..]);
    assert buf[..] == whole;
    var padding := buf[buf.Length - 1] as int;
    if buf.Length - padding < BLOCK {
      return Panic;
    }
    assert buf[BLOCK..buf.Length - padding] == whole[BLOCK..|whole| - padding];
    var ok := w.Write(buf[BLOCK..buf.Length - padding]);
    r := Ok;
  }

  /** Both directions through the Go code: what Encrypt wrote, Decrypt gives back. */
  method RoundTrip(cipher: Cipher, r: Source, iv: Block) returns (plain: seq<byte>)
    requires r.Valid() && r.ending == EOF
    modifies r
    ensures plain == old(r.Rest())
  {
    var enc := new Sink(None);
    var err := Encrypt(Some(cipher), r, Some(iv), enc);
    ghost var out, pads :| enc.out == [] + out && EncryptedWith(cipher, iv, pads, old(r.Rest()), out);
    assert enc.out == out;
    DecryptUndoesOne(cipher, iv, pads, old(r.Rest()), out);
    var dec := new Sink(None);
    var result := Decrypt(Some(cipher), enc.out, dec);
    assert dec.out == [] + old(r.Rest());
    plain := dec.out;
  }
}
