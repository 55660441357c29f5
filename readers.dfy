/** The byte sources the lexer pulls from. Each one exposes `Stream()`, the
    bytes it yields before its next `None`, and a `Next` that yields the first
    of them and keeps the rest, or yields `None` exactly when `Stream()` is
    empty. After a failed read a later call may read again; the lexer's
    `Peekable` caches that `None`, so the lexer never asks again. */
module Readers {
  import opened Bytes
  import opened Io

  /** One `read_exact` of a single byte per call, with no buffer. */
  class ByteReader {
    var inner: seq<Reply>

    ghost predicate Valid()
      reads this
    {
      Fits(inner, 1)
    }

    ghost function Stream(): seq<byte>
      reads this
    {
      Delivered(inner)
    }

    constructor (inner: seq<Reply>)
      requires Fits(inner, 1)
      ensures Valid() && this.inner == inner
    {
      this.inner := inner;
    }

    method Next() returns (r: Option<byte>)
      requires Valid()
      modifies this
      ensures Valid()
      // every call issues exactly one read
      ensures inner == Later(old(inner))
      ensures r.Some? ==> old(Stream()) == [r.value] + Stream()
      ensures r.None? <==> old(Stream()) == []
    {
      if inner == [] {
        // `Ok(0)` at end of file: `read_exact` fails with `UnexpectedEof`
        r := None;
      } else {
        var reply := inner[0];
        inner := inner[1..];
        match reply
        case Fault =>
          r := None;
        case Chunk(bytes) =>
          r := if bytes == [] then None else Some(bytes[0]);
      }
    }
  }

  /** A reusable buffer of fixed capacity with an `offset` cursor and the
      count `remainder` of valid bytes, refilled by one read when drained. */
  class BufferedReader {
    var inner: seq<Reply>
    const buffer: array<byte>
    var offset: nat
    var remainder: nat

    ghost predicate Valid()
      reads this
    {
      offset <= remainder <= buffer.Length
    }

    ghost function Stream(): seq<byte>
      reads this, buffer
      requires Valid()
    {
      buffer[offset..remainder] + DeliveredWithin(inner, buffer.Length)
    }

    constructor (inner: seq<Reply>, buffer: array<byte>)
      ensures Valid() && this.inner == inner && this.buffer == buffer
      ensures offset == 0 && remainder == 0
      ensures Stream() == DeliveredWithin(inner, buffer.Length)
    {
      this.inner := inner;
      this.buffer := buffer;
      offset, remainder := 0, 0;
    }

    /** One read into the whole buffer. A failed or empty read leaves the
        cursors alone; a read of `n > 0` bytes resets them to `0` and `n`.
        A read that reports more bytes than the buffer holds is refused like
        a failed one, so `remainder` never exceeds the buffer's length. */
    method RefillBuffer() returns (ok: bool)
      requires Valid()
      modifies this, buffer
      ensures Valid() && inner == Later(old(inner))
      ensures ok <==> !Exhausted(old(inner)) && !Overrun(old(inner), buffer.Length)
      ensures ok ==> offset == 0 && remainder == |old(inner)[0].bytes|
                     && buffer[..remainder] == old(inner)[0].bytes
      ensures !ok ==> offset == old(offset) && remainder == old(remainder)
                      && buffer[..] == old(buffer[..])
    {
      if inner == [] {
        ok := false;
        return;
      }
      var reply := inner[0];
      inner := inner[1..];
      match reply
      case Fault =>
        ok := false;
      case Chunk(bytes) =>
        if bytes == [] || |bytes| > buffer.Length {
          ok := false;
        } else {
          assert old(inner)[0] == reply;
          forall i | 0 <= i < |bytes| {
            buffer[i] := bytes[i];
          }
          offset, remainder := 0, |bytes|;
          ok := true;
        }
    }

    method Next() returns (r: Option<byte>)
      requires Valid()
      modifies this, buffer
      ensures Valid()
      ensures r.Some? ==> old(Stream()) == [r.value] + Stream()
      ensures r.None? <==> old(Stream()) == []
      // bytes still in the buffer are served without reading
      ensures old(offset) < old(remainder) ==>
        r == Some(old(buffer[offset])) && inner == old(inner)
        && offset == old(offset) + 1 && remainder == old(remainder)
      // a refill is attempted only once the buffer is drained
      ensures old(offset) == old(remainder) ==> inner == Later(old(inner))
      ensures r.None? ==> offset == old(offset) && remainder == old(remainder)
    {
      ghost var before := Stream();
      if offset == remainder {
        ghost var replies := inner;
        var ok := RefillBuffer();
        if !ok {
          return None;
        }
        assert DeliveredWithin(replies, buffer.Length) == replies[0].bytes + DeliveredWithin(inner, buffer.Length);
        assert buffer[offset..remainder] == buffer[..remainder];
      }
      assert Stream() == before;
      var at := offset;
      offset := offset + 1;
      // the unchecked read of the source: `at < remainder <= buffer.Length`
      r := Some(buffer[at]);
      ghost var data := buffer[..];
      assert data[at..remainder] == [data[at]] + data[offset..remainder];
    }
  }

  /** The cursors of a `BufferedReader`, without the buffer. */
  datatype Cursors = Cursors(offset: nat, remainder: nat)

  /** `refill_buffer` as written: `Ok(n)` with `n > 0` sets the cursors to
      `0` and `n`, whatever the length of the buffer the bytes went into. */
  function RefillAsWritten(reply: Reply): Option<Cursors> {
    if reply.Chunk? && reply.bytes != [] then Some(Cursors(0, |reply.bytes|)) else None
  }

  /** `next` as written, on the cursors alone: the buffer index it reads (if
      any), the cursors after it and the replies left. */
  function NextAsWritten(c: Cursors, replies: seq<Reply>): (Option<nat>, Cursors, seq<Reply>) {
    if c.offset != c.remainder then (Some(c.offset), Cursors(c.offset + 1, c.remainder), replies)
    else if replies == [] then (None, c, replies)
    else match RefillAsWritten(replies[0])
      case None => (None, c, replies[1..])
      case Some(d) => (Some(d.offset), Cursors(d.offset + 1, d.remainder), replies[1..])
  }

  /** The buffer indices read by `calls` successive calls of `next` as written. */
  function IndicesAsWritten(c: Cursors, replies: seq<Reply>, calls: nat): seq<nat>
    decreases calls
  {
    if calls == 0 then []
    else
      var r := NextAsWritten(c, replies);
      (if r.0.Some? then [r.0.value] else []) + IndicesAsWritten(r.1, r.2, calls - 1)
  }

  /** While bytes remain, each call as written reads the next index. */
  lemma {:induction false} ServesInOrder(c: Cursors, replies: seq<Reply>, calls: nat)
    requires c.offset + calls <= c.remainder
    ensures IndicesAsWritten(c, replies, calls) == seq(calls, i => c.offset + i)
    decreases calls
  {
    if calls > 0 {
      ServesInOrder(Cursors(c.offset + 1, c.remainder), replies, calls - 1);
    }
  }

  /** As written, the reader stays inside a buffer of `capacity` bytes as
      long as every read reports at most `capacity` bytes: the unchecked read
      is sound exactly for such reads. */
  lemma {:induction false} InBoundsWhenFits(c: Cursors, replies: seq<Reply>, calls: nat, capacity: nat)
    requires c.offset <= c.remainder <= capacity && Fits(replies, capacity)
    ensures forall i :: i in IndicesAsWritten(c, replies, calls) ==> i < capacity
    decreases calls
  {
    if calls > 0 {
      var r := NextAsWritten(c, replies);
      if replies != [] {
        assert Fits(replies[1..], capacity) by {
          assert forall j :: 0 <= j < |replies| - 1 ==> replies[1..][j] == replies[j + 1];
        }
        assert replies[0].Chunk? ==> |replies[0].bytes| <= capacity;
      }
      assert r.1.offset <= r.1.remainder <= capacity && Fits(r.2, capacity);
      InBoundsWhenFits(r.1, r.2, calls - 1, capacity);
    }
  }

  /** As written, a `Read` that reports more bytes than the buffer holds
      makes `next` read index `capacity` of a buffer of `capacity` bytes,
      one past its end. */
  lemma OverrunAsWritten(capacity: nat, bytes: seq<byte>)
    requires |bytes| > capacity
    ensures capacity in IndicesAsWritten(Cursors(0, 0), [Chunk(bytes)], capacity + 1)
  {
    var first := NextAsWritten(Cursors(0, 0), [Chunk(bytes)]);
    assert first.0 == Some(0) && first.1 == Cursors(1, |bytes|);
    ServesInOrder(first.1, first.2, capacity);
    var later := IndicesAsWritten(first.1, first.2, capacity);
    if capacity > 0 {
      assert later[capacity - 1] == capacity;
      assert ([0] + later)[capacity] == capacity;
    }
  }

  /** A walk over a fixed region of `len` bytes, from `base` (index 0)
      towards `end` (index `len`). */
  class MMapReader {
    const region: seq<byte>
    const len: nat
    var ptr: nat

    ghost predicate Valid()
      reads this
    {
      len == |region| && ptr <= len
    }

    ghost function Stream(): seq<byte>
      reads this
      requires Valid()
    {
      region[ptr..]
    }

    constructor (contents: seq<byte>)
      ensures Valid() && region == contents && ptr == 0
      ensures Stream() == contents
    {
      region := contents;
      len := |contents|;
      ptr := 0;
    }

    method Next() returns (r: Option<byte>)
      requires Valid()
      modifies this
      ensures Valid()
      ensures old(ptr) < len ==> r == Some(region[old(ptr)]) && ptr == old(ptr) + 1
      ensures old(ptr) == len ==> r == None && ptr == len
      ensures r.Some? ==> old(Stream()) == [r.value] + Stream()
      ensures r.None? <==> old(Stream()) == []
    {
      if ptr < len {
        r := Some(region[ptr]);
        ptr := ptr + 1;
      } else {
        r := None;
      }
    }
  }

  /** Any of the three sources; the lexer is written once against this. */
  datatype Source =
    | Unbuffered(bytes: ByteReader)
    | Buffered(buffered: BufferedReader)
    | Mapped(mapped: MMapReader)
  {
    ghost function Repr(): set<object> {
      match this
      case Unbuffered(b) => {b}
      case Buffered(b) => {b, b.buffer}
      case Mapped(m) => {m}
    }

    ghost predicate Valid()
      reads Repr()
    {
      match this
      case Unbuffered(b) => b.Valid()
      case Buffered(b) => b.Valid()
      case Mapped(m) => m.Valid()
    }

    ghost function Stream(): seq<byte>
      reads Repr()
      requires Valid()
    {
      match this
      case Unbuffered(b) => b.Stream()
      case Buffered(b) => b.Stream()
      case Mapped(m) => m.Stream()
    }

    method Next() returns (r: Option<byte>)
      requires Valid()
      modifies Repr()
      ensures Valid()
      ensures r.Some? ==> old(Stream()) == [r.value] + Stream()
      ensures r.None? <==> old(Stream()) == []
    {
      match this
      case Unbuffered(b) => r := b.Next();
      case Buffered(b) => r := b.Next();
      case Mapped(m) => r := m.Next();
    }
  }
}
