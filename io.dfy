/** The underlying `Read` a reader pulls from, as the sequence of replies its
    successive `read` calls return. */
module Io {
  import opened Bytes

  /** One `read` call: `Ok(n)` with the `n` bytes written into the caller's
      buffer, or `Err`. `Chunk([])` is `Ok(0)`, end of file. */
  datatype Reply = Chunk(bytes: seq<byte>) | Fault

  /** Once the replies run out, every further read returns `Ok(0)`. */
  predicate Exhausted(replies: seq<Reply>) {
    replies == [] || replies[0].Fault? || replies[0].bytes == []
  }

  /** The replies left after one more `read` call. */
  function Later(replies: seq<Reply>): seq<Reply> {
    if replies == [] then [] else replies[1..]
  }

  /** A `read` never reports more bytes than the buffer it was given. */
  predicate Fits(replies: seq<Reply>, capacity: nat) {
    forall i :: 0 <= i < |replies| ==> replies[i].Chunk? ==> |replies[i].bytes| <= capacity
  }

  /** The bytes delivered before the first failed or empty read. */
  function Delivered(replies: seq<Reply>): seq<byte> {
    if Exhausted(replies) then [] else replies[0].bytes + Delivered(replies[1..])
  }

  /** A read that reports more bytes than the buffer it was given holds. */
  predicate Overrun(replies: seq<Reply>, capacity: nat)
    requires !Exhausted(replies)
  {
    |replies[0].bytes| > capacity
  }

  /** The bytes delivered into a buffer of `capacity` bytes before the first
      failed, empty or overrunning read. */
  function DeliveredWithin(replies: seq<Reply>, capacity: nat): seq<byte> {
    if Exhausted(replies) || Overrun(replies, capacity) then []
    else replies[0].bytes + DeliveredWithin(replies[1..], capacity)
  }

  /** Reads that respect the buffer size deliver the same bytes whether or
      not overrunning reads are refused. */
  lemma {:induction false} DeliveredWithinFits(replies: seq<Reply>, capacity: nat)
    requires Fits(replies, capacity)
    ensures DeliveredWithin(replies, capacity) == Delivered(replies)
  {
    if !Exhausted(replies) {
      assert Fits(replies[1..], capacity) by {
        assert forall i :: 0 <= i < |replies| - 1 ==> replies[1..][i] == replies[i + 1];
      }
      DeliveredWithinFits(replies[1..], capacity);
    }
  }

  /** A regular file read through a buffer of `capacity` bytes: each read
      returns as much as fits, and reads at the end of the file return 0. */
  function FileReplies(data: seq<byte>, capacity: nat): (r: seq<Reply>)
    ensures Fits(r, capacity)
    decreases |data|
  {
    if data == [] || capacity == 0 then []
    else
      var n := if |data| < capacity then |data| else capacity;
      [Chunk(data[..n])] + FileReplies(data[n..], capacity)
  }

  /** Reading a file through any non-empty buffer delivers exactly its bytes;
      only a zero-capacity buffer changes that (every read returns 0). */
  lemma {:induction false} FileDelivers(data: seq<byte>, capacity: nat)
    ensures Delivered(FileReplies(data, capacity)) == if capacity == 0 then [] else data
    decreases |data|
  {
    if data != [] && capacity > 0 {
      var n := if |data| < capacity then |data| else capacity;
      FileDelivers(data[n..], capacity);
      assert data[..n] + data[n..] == data;
    }
  }
}
