/** Go's io.Reader and io.Writer: sources that deliver their data in arbitrary chunks, and sinks that may fill up. */
module Streams {
  import opened Options
  import opened Bytes

  datatype Err = Nil | EOF | UnexpectedEOF | Failure

  function Flat(chunks: seq<seq<byte>>): (r: seq<byte>) {
    if chunks == [] then [] else chunks[0] + Flat(chunks[1..])
  }

  function Min(a: int, b: int): (r: int) { if a < b then a else b }

  /** A reader that hands out at most one chunk per call, empty chunks included, and ends with EOF or with a
      failure, either along with the last bytes or on a call of its own. */
  class Source {
    var chunks: seq<seq<byte>>
    const ending: Err
    const endsWithLast: bool

    constructor (chunks: seq<seq<byte>>, ending: Err, endsWithLast: bool)
      requires ending == EOF || ending == Failure
      ensures this.chunks == chunks && this.ending == ending && this.endsWithLast == endsWithLast
    {
      this.chunks, this.ending, this.endsWithLast := chunks, ending, endsWithLast;
    }

    predicate Valid() { ending == EOF || ending == Failure }

    /** What is still to be delivered. */
    function Rest(): (r: seq<byte>)
      reads this
    {
      Flat(chunks)
    }

    /** A measure of the calls left. */
    function Weight(): (r: nat)
      reads this
    {
      |chunks| + |Rest()|
    }

    /** Reads into buf[off..]. */
    method Read(buf: array<byte>, off: nat) returns (n: nat, err: Err, ghost got: seq<byte>)
      requires Valid() && off <= buf.Length
      modifies this, buf
      ensures off + n <= buf.Length
      ensures buf[..off + n] == old(buf[..off]) + got
      ensures old(Rest()) == got + Rest()
      ensures err == Nil || err == ending
      ensures err != Nil ==> Rest() == []
      ensures err == Nil && off < buf.Length ==> Weight() < old(Weight())
    {
      if chunks == [] {
        return 0, ending, [];
      }
      var c := chunks[0];
      n := Min(|c|, buf.Length - off);
      forall i | 0 <= i < n {
        buf[off + i] := c[i];
      }
      got := c[..n];
      assert c == got + c[n..];
      if n == |c| {
        chunks := chunks[1..];
      } else {
        chunks := [c[n..]] + chunks[1..];
      }
      err := if chunks == [] && endsWithLast then ending else Nil;
    }
  }

  /** A writer with room for a given number of bytes; None: it never fails. */
  class Sink {
    var out: seq<byte>
    const room: Option<nat>

    constructor (room: Option<nat>)
      ensures out == [] && this.room == room
    {
      out := [];
      this.room := room;
    }

    predicate Fits(n: nat)
      reads this
    {
      room.None? || |out| + n <= room.value
    }

    method Write(p: seq<byte>) returns (ok: bool)
      modifies this
      ensures ok == old(Fits(|p|))
      ensures out == if ok then old(out) + p else old(out)
    {
      ok := room.None? || |out| + |p| <= room.value;
      if ok {
        out := out + p;
      }
    }
  }

  /** What the archive writer makes of one more file: whether it takes it at all, and how many bytes it has room for. */
  datatype Slot = Slot(creates: bool, room: Option<nat>)

  predicate Takes(slot: Slot, n: nat) { slot.creates && (slot.room.None? || n <= slot.room.value) }
}
